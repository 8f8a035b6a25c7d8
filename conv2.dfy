/**
  `conv2_with_accelerator_parallel` (Microblaze/ACC.c:529-598), the second
  convolution: a channel-last input with 32 channels (conv1's output,
  127 pixels wide), 64 filters of 3 x 3 x 32 weights, a 120 x 125 x 64
  channel-last output. For every output pixel and every input channel the
  64 filters run in slot pairs against that channel's 3x3 window, and each
  filter's answers are summed over the 32 channels before the rescale.

  The layer does not rewind the accelerator's output offset (the "Reset"
  comment at Microblaze/ACC.c:534 has no code under it): it starts where
  conv1 left the offset and keeps reading forward.
*/
module Conv2Layer {
  import opened Bytes
  import opened Accelerator
  import opened Layers

  /** Number of conv2 outputs: 120 * 125 * 64. */
  const Conv2Size: nat := 960000

  /** The shapes conv2 reads: rows at least 127 pixels of 32 channels wide,
      enough rows for the last window, and 64 filters of 288 weights. */
  predicate Conv2Inputs(image: seq<Int8>, width: nat, filters: seq<Int8>) {
    && width >= 127
    && (121 * width + 127) * 32 <= |image|
    && |filters| >= 64 * 288
  }

  /** Where row `r`, column `c` of channel `ch`'s 3x3 window whose
      top-left pixel is (row, col) sits in the HWC input:
      ((row + r) * width + (col + c)) * 32 + ch, inside the input. */
  function TapIndex(width: nat, size: nat, row: nat, col: nat, ch: nat, r: nat, c: nat): (i: nat)
    requires width >= 127 && (121 * width + 127) * 32 <= size
    requires row < 120 && col < 125 && ch < 32 && r < 3 && c < 3
    ensures i < size
  {
    MulLe(row + r, 121, width);
    ((row + r) * width + (col + c)) * 32 + ch
  }

  /** Tap `k` of that window, k = r * 3 + c. */
  function Tap(image: seq<Int8>, width: nat, row: nat, col: nat, ch: nat, k: nat): Int8
    requires width >= 127 && (121 * width + 127) * 32 <= |image|
    requires row < 120 && col < 125 && ch < 32 && k < 9
  {
    image[TapIndex(width, |image|, row, col, ch, k / 3, k % 3)]
  }

  /** That channel's window, taps in order. */
  function Patch(image: seq<Int8>, width: nat, row: nat, col: nat, ch: nat): (p: seq<Int8>)
    requires width >= 127 && (121 * width + 127) * 32 <= |image|
    requires row < 120 && col < 125 && ch < 32
    ensures |p| == 9
  {
    seq(9, k requires 0 <= k < 9 => Tap(image, width, row, col, ch, k))
  }

  /** The operation started for filter `f` against channel `ch`'s window
      `patch` (Microblaze/ACC.c:559-575): the window and the nine weights of
      filter f for channel ch, found at f * 288 + ch * 9, in slot f mod 2,
      with PE mask 1 << (f mod 8). */
  function ChannelOp(patch: seq<Int8>, filters: seq<Int8>, ch: nat, f: nat): Op
    requires |patch| == 9 && |filters| >= 64 * 288 && ch < 32 && f < 64
  {
    var at := f * 288 + ch * 9;
    Op(f % 2, Unsigned(patch), Unsigned(filters[at..at + 9]), PeMask(f))
  }

  /** The 64 operations of one channel of one pixel, in filter order. */
  function ChannelOps(patch: seq<Int8>, filters: seq<Int8>, ch: nat): (ops: seq<Op>)
    requires |patch| == 9 && |filters| >= 64 * 288 && ch < 32
    ensures |ops| == 64
    ensures forall f {:trigger ChannelOp(patch, filters, ch, f)} | 0 <= f < 64 ::
              ops[f] == ChannelOp(patch, filters, ch, f)
  {
    seq(64, f requires 0 <= f < 64 => ChannelOp(patch, filters, ch, f))
  }

  /** The operations of pixel (oh, ow) for its first `n` channels, channel
      by channel. */
  function PixelOps(image: seq<Int8>, width: nat, filters: seq<Int8>, oh: nat, ow: nat, n: nat): (ops: seq<Op>)
    requires Conv2Inputs(image, width, filters) && oh < 120 && ow < 125 && n <= 32
    ensures |ops| == 64 * n
  {
    if n == 0 then []
    else PixelOps(image, width, filters, oh, ow, n - 1)
         + ChannelOps(Patch(image, width, oh, ow, n - 1), filters, n - 1)
  }

  /** Filter f's answers for pixel (oh, ow), summed over its first `n`
      channels. */
  function ChannelSum(respond: Op -> U32, image: seq<Int8>, width: nat, filters: seq<Int8>,
                      oh: nat, ow: nat, f: nat, n: nat): int
    requires Conv2Inputs(image, width, filters) && oh < 120 && ow < 125 && f < 64 && n <= 32
  {
    if n == 0 then 0
    else ChannelSum(respond, image, width, filters, oh, ow, f, n - 1)
         + respond(ChannelOp(Patch(image, width, oh, ow, n - 1), filters, n - 1, f))
  }

  /** The activation stored for filter `f` of pixel (oh, ow)
      (Microblaze/ACC.c:587-594): the 32-channel sum plus the bias, in
      32-bit arithmetic, rescaled with filter f's scale and clamped. */
  function PixelValue(respond: Op -> U32, image: seq<Int8>, width: nat, filters: seq<Int8>,
                      biases: seq<Int32>, zY: int, round: Rescale, oh: nat, ow: nat, f: nat): Int8
    requires Conv2Inputs(image, width, filters) && |biases| >= 64 && oh < 120 && ow < 125 && f < 64
  {
    Requantize(round, f, AsInt32(ChannelSum(respond, image, width, filters, oh, ow, f, 32) + biases[f]), zY)
  }

  /** The 64 activations of one pixel, by filter. */
  function PixelValues(respond: Op -> U32, image: seq<Int8>, width: nat, filters: seq<Int8>,
                       biases: seq<Int32>, zY: int, round: Rescale, oh: nat, ow: nat): (vs: seq<Int8>)
    requires Conv2Inputs(image, width, filters) && |biases| >= 64 && oh < 120 && ow < 125
    ensures |vs| == 64
    ensures forall f {:trigger PixelValue(respond, image, width, filters, biases, zY, round, oh, ow, f)}
              | 0 <= f < 64 :: vs[f] == PixelValue(respond, image, width, filters, biases, zY, round, oh, ow, f)
  {
    seq(64, f requires 0 <= f < 64 => PixelValue(respond, image, width, filters, biases, zY, round, oh, ow, f))
  }

  /** The operations conv2 starts for its first `n` pixels in row-major
      order (pixel p is row p / 125, column p % 125). */
  function Conv2Ops(image: seq<Int8>, width: nat, filters: seq<Int8>, n: nat): (ops: seq<Op>)
    requires Conv2Inputs(image, width, filters) && n <= 120 * 125
  {
    if n == 0 then []
    else Conv2Ops(image, width, filters, n - 1) + PixelOps(image, width, filters, (n - 1) / 125, (n - 1) % 125, 32)
  }

  /** The activations conv2 stores for its first `n` pixels. */
  function Conv2Values(image: seq<Int8>, width: nat, filters: seq<Int8>, biases: seq<Int32>,
                       zY: int, round: Rescale, respond: Op -> U32, n: nat): (vs: seq<Int8>)
    requires Conv2Inputs(image, width, filters) && |biases| >= 64 && n <= 120 * 125
  {
    if n == 0 then []
    else Conv2Values(image, width, filters, biases, zY, round, respond, n - 1)
         + PixelValues(respond, image, width, filters, biases, zY, round, (n - 1) / 125, (n - 1) % 125)
  }

  /** Within one pixel, entry `ch * 64 + f` is filter f against channel
      ch's window. */
  lemma {:induction false} PixelOpsAt(image: seq<Int8>, width: nat, filters: seq<Int8>, oh: nat, ow: nat,
                                      n: nat, ch: nat, f: nat)
    requires Conv2Inputs(image, width, filters) && oh < 120 && ow < 125 && n <= 32
    requires ch < n && f < 64
    ensures PixelOps(image, width, filters, oh, ow, n)[ch * 64 + f]
            == ChannelOp(Patch(image, width, oh, ow, ch), filters, ch, f)
  {
    if ch < n - 1 {
      PixelOpsAt(image, width, filters, oh, ow, n - 1, ch, f);
    }
  }

  /** Conv2 starts 32 * 64 operations per pixel. */
  lemma {:induction false} Conv2OpsLength(image: seq<Int8>, width: nat, filters: seq<Int8>, n: nat)
    requires Conv2Inputs(image, width, filters) && n <= 120 * 125
    ensures |Conv2Ops(image, width, filters, n)| == 2048 * n
  {
    if n > 0 {
      Conv2OpsLength(image, width, filters, n - 1);
    }
  }

  /** Entry `((h * 125 + w) * 32 + ch) * 64 + f` of conv2's operations is
      filter f applied to channel ch of the 3x3 window whose top-left pixel
      is (h, w): channel ch's nine weights of filter f, in slot f mod 2 with
      PE mask 1 << (f mod 8). */
  lemma {:induction false} Conv2OpsAt(image: seq<Int8>, width: nat, filters: seq<Int8>, n: nat,
                                      h: nat, w: nat, ch: nat, f: nat)
    requires Conv2Inputs(image, width, filters) && n <= 120 * 125
    requires w < 125 && ch < 32 && f < 64 && h * 125 + w < n
    ensures |Conv2Ops(image, width, filters, n)| == 2048 * n
    ensures Conv2Ops(image, width, filters, n)[((h * 125 + w) * 32 + ch) * 64 + f]
            == Op(f % 2, Unsigned(Patch(image, width, h, w, ch)),
                  Unsigned(filters[f * 288 + ch * 9..f * 288 + ch * 9 + 9]), PeMask(f))
  {
    Conv2OpsLength(image, width, filters, n);
    var p := h * 125 + w;
    if p == n - 1 {
      Conv2OpsLength(image, width, filters, n - 1);
      assert (n - 1) / 125 == h && (n - 1) % 125 == w;
      PixelOpsAt(image, width, filters, h, w, 32, ch, f);
      assert ((h * 125 + w) * 32 + ch) * 64 + f == 2048 * (n - 1) + (ch * 64 + f);
    } else {
      Conv2OpsAt(image, width, filters, n - 1, h, w, ch, f);
    }
  }

  /** Conv2 stores 64 activations per pixel. */
  lemma {:induction false} Conv2ValuesLength(image: seq<Int8>, width: nat, filters: seq<Int8>, biases: seq<Int32>,
                                             zY: int, round: Rescale, respond: Op -> U32, n: nat)
    requires Conv2Inputs(image, width, filters) && |biases| >= 64 && n <= 120 * 125
    ensures |Conv2Values(image, width, filters, biases, zY, round, respond, n)| == 64 * n
  {
    if n > 0 {
      Conv2ValuesLength(image, width, filters, biases, zY, round, respond, n - 1);
    }
  }

  /** Entry `(h * 125 + w) * 64 + f` of conv2's activations is filter f's
      answers for window (h, w), summed over all 32 channels, plus bias f,
      wrapped to 32 bits, rescaled with scale f, plus the output zero
      point, clamped to 0..127. */
  lemma {:induction false} Conv2ValuesAt(image: seq<Int8>, width: nat, filters: seq<Int8>, biases: seq<Int32>,
                                         zY: int, round: Rescale, respond: Op -> U32, n: nat,
                                         h: nat, w: nat, f: nat)
    requires Conv2Inputs(image, width, filters) && |biases| >= 64 && n <= 120 * 125
    requires w < 125 && f < 64 && h * 125 + w < n
    ensures |Conv2Values(image, width, filters, biases, zY, round, respond, n)| == 64 * n
    ensures var v := Conv2Values(image, width, filters, biases, zY, round, respond, n)[(h * 125 + w) * 64 + f];
            && v == Requantize(round, f, AsInt32(ChannelSum(respond, image, width, filters, h, w, f, 32) + biases[f]), zY)
            && 0 <= v <= 127
  {
    Conv2ValuesLength(image, width, filters, biases, zY, round, respond, n);
    var p := h * 125 + w;
    if p == n - 1 {
      Conv2ValuesLength(image, width, filters, biases, zY, round, respond, n - 1);
      assert (n - 1) / 125 == h && (n - 1) % 125 == w;
    } else {
      Conv2ValuesAt(image, width, filters, biases, zY, round, respond, n - 1, h, w, f);
    }
  }

  /** The window extraction for one input channel
      (Microblaze/ACC.c:547-555). */
  method ExtractPatch(input: array<Int8>, width: nat, row: nat, col: nat, ch: nat) returns (patch: seq<Int8>)
    requires width >= 127 && (121 * width + 127) * 32 <= input.Length
    requires row < 120 && col < 125 && ch < 32
    ensures patch == Patch(input[..], width, row, col, ch)
  {
    var inPatch := new Int8[9];
    for r := 0 to 3
      invariant forall k | 0 <= k < 3 * r :: inPatch[k] == Tap(input[..], width, row, col, ch, k)
    {
      for c := 0 to 3
        invariant forall k | 0 <= k < 3 * r + c :: inPatch[k] == Tap(input[..], width, row, col, ch, k)
      {
        assert (r * 3 + c) / 3 == r && (r * 3 + c) % 3 == c;
        inPatch[r * 3 + c] := input[TapIndex(width, input.Length, row, col, ch, r, c)];
      }
    }
    patch := inPatch[..];
  }

  /** One pass of conv2's filter loop for one channel
      (Microblaze/ACC.c:557-576): the operations for filters `group` and
      `group + 1` against the channel's window are started, in that order,
      and their two answers read back. */
  method Conv2Pair(dev: Device, patch: seq<Int8>, filters: seq<Int8>, ch: nat, group: nat)
    returns (results: seq<U32>)
    requires dev.Valid() && dev.Drained()
    requires |patch| == 9 && |filters| >= 64 * 288 && ch < 32
    requires group % 2 == 0 && group + 2 <= 64
    modifies dev, dev.registers
    ensures dev.Valid() && dev.Drained()
    ensures dev.issued == old(dev.issued) + [ChannelOp(patch, filters, ch, group), ChannelOp(patch, filters, ch, group + 1)]
    ensures results == [dev.respond(ChannelOp(patch, filters, ch, group)), dev.respond(ChannelOp(patch, filters, ch, group + 1))]
  {
    assert (group + 1) % 2 == 1;
    var at0, at1 := group * 288 + ch * 9, (group + 1) * 288 + ch * 9;
    results := RunPair(dev, patch, filters[at0..at0 + 9], PeMask(group),
                       patch, filters[at1..at1 + 9], PeMask(group + 1));
  }

  /** The answers the 64 operations of one channel get, by filter. */
  function ChannelAnswers(respond: Op -> U32, patch: seq<Int8>, filters: seq<Int8>, ch: nat): (rs: seq<U32>)
    requires |patch| == 9 && |filters| >= 64 * 288 && ch < 32
    ensures |rs| == 64
    ensures forall f | 0 <= f < 64 :: rs[f] == respond(ChannelOp(patch, filters, ch, f))
  {
    seq<U32>(64, f requires 0 <= f < 64 => respond(ChannelOp(patch, filters, ch, f)))
  }

  /** The first `n` accumulators of `cur` hold their values in `acc` plus
      their answers, in 32-bit arithmetic; the others hold their values in
      `acc`. */
  ghost predicate AddedUpTo(acc: seq<Int32>, answers: seq<U32>, cur: seq<Int32>, n: nat) {
    && |acc| == |answers| == |cur|
    && (forall f | 0 <= f < n && f < |cur| :: cur[f] == AsInt32(acc[f] + answers[f]))
    && (forall f | n <= f < |cur| :: cur[f] == acc[f])
  }

  /** Adding answers r0 and r1 to accumulators g and g + 1 extends the
      run of accumulators that have theirs. */
  lemma AddedPair(acc: seq<Int32>, answers: seq<U32>, cur: seq<Int32>, g: nat, r0: U32, r1: U32)
    requires AddedUpTo(acc, answers, cur, g) && g + 2 <= |cur|
    requires r0 == answers[g] && r1 == answers[g + 1]
    ensures AddedUpTo(acc, answers, cur[g := AsInt32(cur[g] as int + r0)][g + 1 := AsInt32(cur[g + 1] as int + r1)], g + 2)
  {
  }

  /** One channel of one pixel (Microblaze/ACC.c:557-583): 32 pairs start
      the channel's 64 operations in filter order, and each filter's
      accumulator adds its answer, in 32-bit arithmetic. The local
      `accumulators` array is the sequence `acc`. */
  method Conv2Channel(dev: Device, patch: seq<Int8>, filters: seq<Int8>, ch: nat, acc: seq<Int32>)
    returns (acc': seq<Int32>)
    requires dev.Valid() && dev.Drained()
    requires |patch| == 9 && |filters| >= 64 * 288 && ch < 32 && |acc| == 64
    modifies dev, dev.registers
    ensures dev.Valid() && dev.Drained()
    ensures dev.issued == old(dev.issued) + ChannelOps(patch, filters, ch)
    ensures |acc'| == 64
    ensures forall f | 0 <= f < 64 :: acc'[f] == AsInt32(acc[f] + dev.respond(ChannelOp(patch, filters, ch, f)))
  {
    ghost var ops, answers := ChannelOps(patch, filters, ch), ChannelAnswers(dev.respond, patch, filters, ch);
    ghost var prior := dev.issued;
    acc' := acc;
    for pair := 0 to 32
      invariant dev.Valid() && dev.Drained()
      invariant dev.issued == prior + ops[..2 * pair]
      invariant AddedUpTo(acc, answers, acc', 2 * pair)
    {
      acc' := ChannelPair(dev, patch, filters, ch, acc, acc', prior, ops, answers, 2 * pair);
    }
  }

  /** One pass of the filter loop with its accumulation
      (Microblaze/ACC.c:557-583): filters `group` and `group + 1` start
      their operations after those of the filters before them, and add
      their answers to their accumulators, in 32-bit arithmetic. */
  method ChannelPair(dev: Device, patch: seq<Int8>, filters: seq<Int8>, ch: nat, ghost acc: seq<Int32>,
                     cur: seq<Int32>, ghost prior: seq<Op>, ghost ops: seq<Op>, ghost answers: seq<U32>, group: nat)
    returns (cur': seq<Int32>)
    requires dev.Valid() && dev.Drained()
    requires |patch| == 9 && |filters| >= 64 * 288 && ch < 32 && group % 2 == 0 && group + 2 <= 64
    requires ops == ChannelOps(patch, filters, ch) && answers == ChannelAnswers(dev.respond, patch, filters, ch)
    requires dev.issued == prior + ops[..group] && AddedUpTo(acc, answers, cur, group)
    modifies dev, dev.registers
    ensures dev.Valid() && dev.Drained()
    ensures dev.issued == prior + ops[..group + 2] && AddedUpTo(acc, answers, cur', group + 2)
  {
    var results := Conv2Pair(dev, patch, filters, ch, group);
    AddedPair(acc, answers, cur, group, results[0], results[1]);
    cur' := cur[group := AsInt32(cur[group] as int + results[0])]
               [group + 1 := AsInt32(cur[group + 1] as int + results[1])];
    Append2(prior, ops, group);
  }

  /** The store after the channel loop (Microblaze/ACC.c:587-595): filter
      f's accumulator plus its bias, wrapped to 32 bits and requantized,
      lands at `output[base + f]`; nothing else in `output` changes. */
  method StoreFilters(acc: seq<Int32>, biases: seq<Int32>, zY: int, round: Rescale,
                      output: array<Int8>, base: nat)
    requires |acc| == 64 && |biases| >= 64 && base + 64 <= output.Length
    modifies output
    ensures output[..] == old(output[..])[..base]
              + seq(64, f requires 0 <= f < 64 => Requantize(round, f, AsInt32(acc[f] as int + biases[f]), zY))
              + old(output[..])[base + 64..]
  {
    ghost var values := seq(64, f requires 0 <= f < 64 => Requantize(round, f, AsInt32(acc[f] as int + biases[f]), zY));
    for f := 0 to 64
      invariant output[..] == old(output[..])[..base] + values[..f] + old(output[..])[base + f..]
    {
      var mac := AsInt32(acc[f] as int + biases[f]);
      var scaled := round(f, mac) + zY;
      if scaled < 0 { scaled := 0; }
      if scaled > 127 { scaled := 127; }
      output[base + f] := scaled;
      assert values[..f + 1] == values[..f] + [values[f]];
    }
  }

  /** Adding channel n's answer to the wrapped sum of the first n
      channels gives the wrapped sum of the first n + 1. */
  lemma ChannelSumNext(respond: Op -> U32, image: seq<Int8>, width: nat, filters: seq<Int8>,
                       oh: nat, ow: nat, f: nat, n: nat)
    requires Conv2Inputs(image, width, filters) && oh < 120 && ow < 125 && f < 64 && n < 32
    ensures AsInt32(AsInt32(ChannelSum(respond, image, width, filters, oh, ow, f, n))
                    + respond(ChannelOp(Patch(image, width, oh, ow, n), filters, n, f)))
            == AsInt32(ChannelSum(respond, image, width, filters, oh, ow, f, n + 1))
  {
    AsInt32Add(ChannelSum(respond, image, width, filters, oh, ow, f, n),
               respond(ChannelOp(Patch(image, width, oh, ow, n), filters, n, f)));
  }

  /** Filter f's accumulator after the first `n` channels of pixel
      (oh, ow): its answers summed, in 32-bit arithmetic. */
  function Accumulated(respond: Op -> U32, image: seq<Int8>, width: nat, filters: seq<Int8>,
                       oh: nat, ow: nat, n: nat): (acc: seq<Int32>)
    requires Conv2Inputs(image, width, filters) && oh < 120 && ow < 125 && n <= 32
    ensures |acc| == 64
  {
    seq(64, f requires 0 <= f < 64 => AsInt32(ChannelSum(respond, image, width, filters, oh, ow, f, n)))
  }

  /** One iteration of the channel loop (Microblaze/ACC.c:545-585) for
      channel `ch`: its window is extracted and its 64 operations run; the
      operations started and the accumulators grow from the pixel's first
      `ch` channels to its first `ch + 1`. */
  method AccumulateChannel(dev: Device, input: array<Int8>, width: nat, filters: seq<Int8>,
                           oh: nat, ow: nat, ch: nat, acc: seq<Int32>, ghost prior: seq<Op>)
    returns (acc': seq<Int32>)
    requires dev.Valid() && dev.Drained()
    requires Conv2Inputs(input[..], width, filters) && oh < 120 && ow < 125 && ch < 32
    requires dev.issued == prior + PixelOps(input[..], width, filters, oh, ow, ch)
    requires acc == Accumulated(dev.respond, input[..], width, filters, oh, ow, ch)
    modifies dev, dev.registers
    ensures dev.Valid() && dev.Drained()
    ensures dev.issued == prior + PixelOps(input[..], width, filters, oh, ow, ch + 1)
    ensures acc' == Accumulated(dev.respond, input[..], width, filters, oh, ow, ch + 1)
  {
    ghost var image := input[..];
    var patch := ExtractPatch(input, width, oh, ow, ch);
    ghost var ops := PixelOps(image, width, filters, oh, ow, ch);
    acc' := Conv2Channel(dev, patch, filters, ch, acc);
    assert dev.issued == prior + (ops + ChannelOps(patch, filters, ch));
    forall f | 0 <= f < 64
      ensures acc'[f] == Accumulated(dev.respond, image, width, filters, oh, ow, ch + 1)[f]
    {
      ChannelSumNext(dev.respond, image, width, filters, oh, ow, f, ch);
    }
  }

  /** The channel loop of one output pixel (Microblaze/ACC.c:540-585):
      the accumulators start at zero, and every channel's window is
      extracted and its 64 operations run; each filter's accumulator ends
      as its answers summed over the 32 channels, in 32-bit arithmetic. */
  method AccumulatePixel(dev: Device, input: array<Int8>, width: nat, filters: seq<Int8>, oh: nat, ow: nat)
    returns (acc: seq<Int32>)
    requires dev.Valid() && dev.Drained()
    requires Conv2Inputs(input[..], width, filters) && oh < 120 && ow < 125
    modifies dev, dev.registers
    ensures dev.Valid() && dev.Drained()
    ensures dev.issued == old(dev.issued) + PixelOps(input[..], width, filters, oh, ow, 32)
    ensures acc == Accumulated(dev.respond, input[..], width, filters, oh, ow, 32)
  {
    ghost var prior := dev.issued;
    acc := seq(64, _ => 0);
    for ch := 0 to 32
      invariant dev.Valid() && dev.Drained() && input[..] == old(input[..])
      invariant dev.issued == prior + PixelOps(input[..], width, filters, oh, ow, ch)
      invariant acc == Accumulated(dev.respond, input[..], width, filters, oh, ow, ch)
    {
      acc := AccumulateChannel(dev, input, width, filters, oh, ow, ch, acc, prior);
    }
  }

  /** One output pixel of conv2 (Microblaze/ACC.c:540-595): the channel
      loop accumulates every filter's answers, then the pixel's 64
      activations are stored from `output[base]` on; nothing else in
      `output` changes. */
  method Conv2Pixel(dev: Device, input: array<Int8>, width: nat, filters: seq<Int8>, biases: seq<Int32>,
                    zY: int, round: Rescale, output: array<Int8>, oh: nat, ow: nat, base: nat)
    requires dev.Valid() && dev.Drained()
    requires Conv2Inputs(input[..], width, filters) && |biases| >= 64 && oh < 120 && ow < 125
    requires base + 64 <= output.Length && output != input
    modifies dev, dev.registers, output
    ensures dev.Valid() && dev.Drained()
    ensures dev.issued == old(dev.issued) + PixelOps(input[..], width, filters, oh, ow, 32)
    ensures output[..] == old(output[..])[..base]
              + PixelValues(dev.respond, input[..], width, filters, biases, zY, round, oh, ow)
              + old(output[..])[base + 64..]
  {
    ghost var image := input[..];
    var acc := AccumulatePixel(dev, input, width, filters, oh, ow);
    StoreFilters(acc, biases, zY, round, output, base);
    ghost var stored := seq(64, f requires 0 <= f < 64 => Requantize(round, f, AsInt32(acc[f] as int + biases[f]), zY));
    forall f | 0 <= f < 64
      ensures stored[f] == PixelValues(dev.respond, image, width, filters, biases, zY, round, oh, ow)[f]
    {
      AsInt32Add(ChannelSum(dev.respond, image, width, filters, oh, ow, f, 32), biases[f]);
    }
    assert stored == PixelValues(dev.respond, image, width, filters, biases, zY, round, oh, ow);
  }

  /** One iteration of conv2's pixel loop, for pixel p = oh * 125 + ow:
      the operations started and the activations stored so far grow from
      conv2's first p pixels to its first p + 1, and the outputs past them
      stay as they were. */
  method Conv2Step(dev: Device, input: array<Int8>, width: nat, filters: seq<Int8>, biases: seq<Int32>,
                   zY: int, round: Rescale, output: array<Int8>, ghost start: seq<Op>, p: nat)
    requires Conv2Inputs(input[..], width, filters) && |biases| >= 64 && p < 120 * 125
    requires output.Length >= Conv2Size && output != input
    requires dev.Valid() && dev.Drained() && dev.issued == start + Conv2Ops(input[..], width, filters, p)
    requires output[..p * 64] == Conv2Values(input[..], width, filters, biases, zY, round, dev.respond, p)
    modifies dev, dev.registers, output
    ensures dev.Valid() && dev.Drained()
    ensures dev.issued == start + Conv2Ops(input[..], width, filters, p + 1)
    ensures output[..(p + 1) * 64] == Conv2Values(input[..], width, filters, biases, zY, round, dev.respond, p + 1)
    ensures output[(p + 1) * 64..] == old(output[..])[(p + 1) * 64..]
  {
    ghost var image := input[..];
    var oh, ow := p / 125, p % 125;
    Conv2ValuesLength(image, width, filters, biases, zY, round, dev.respond, p);
    Conv2Pixel(dev, input, width, filters, biases, zY, round, output, oh, ow, p * 64);
    ghost var values := PixelValues(dev.respond, image, width, filters, biases, zY, round, oh, ow);
    assert Conv2Values(image, width, filters, biases, zY, round, dev.respond, p + 1)
           == Conv2Values(image, width, filters, biases, zY, round, dev.respond, p) + values;
    assert Conv2Ops(image, width, filters, p + 1)
           == Conv2Ops(image, width, filters, p) + PixelOps(image, width, filters, oh, ow, 32);
    SplicedParts(old(output[..]), values, p * 64);
  }

  /** `conv2_with_accelerator_parallel` (Microblaze/ACC.c:529-598): every
      output pixel in row-major order runs its 32 channels of 64 paired
      operations and stores its 64 activations. The accelerator's output
      offset is NOT rewound: the operations conv2 starts are appended to
      those already read, and the first 120 * 125 * 64 outputs are exactly
      conv2's activations; nothing past them is written. */
  method Conv2(dev: Device, input: array<Int8>, width: nat, filters: array<Int8>, biases: array<Int32>,
               zY: int, round: Rescale, output: array<Int8>)
    requires dev.Valid() && dev.Drained()
    requires Conv2Inputs(input[..], width, filters[..]) && biases.Length >= 64 && output.Length >= Conv2Size
    requires output != input && output != filters
    modifies dev, dev.registers, output
    ensures dev.Valid() && dev.Drained()
    ensures dev.issued == old(dev.issued) + Conv2Ops(input[..], width, filters[..], 120 * 125)
    ensures output[..Conv2Size] == Conv2Values(input[..], width, filters[..], biases[..], zY, round, dev.respond, 120 * 125)
    ensures output[Conv2Size..] == old(output[Conv2Size..])
  {
    ghost var image := input[..];
    ghost var start := dev.issued;
    var weights, bs := filters[..], biases[..];
    var oh := 0;
    while oh < 120
      invariant oh <= 120 && dev.Valid() && dev.Drained()
      invariant input[..] == image
      invariant dev.issued == start + Conv2Ops(image, width, weights, oh * 125)
      invariant output[..oh * 125 * 64] == Conv2Values(image, width, weights, bs, zY, round, dev.respond, oh * 125)
      invariant output[oh * 125 * 64..] == old(output[..])[oh * 125 * 64..]
    {
      var ow := 0;
      while ow < 125
        invariant ow <= 125 && dev.Valid() && dev.Drained()
        invariant input[..] == image
        invariant dev.issued == start + Conv2Ops(image, width, weights, oh * 125 + ow)
        invariant output[..(oh * 125 + ow) * 64]
                  == Conv2Values(image, width, weights, bs, zY, round, dev.respond, oh * 125 + ow)
        invariant output[(oh * 125 + ow) * 64..] == old(output[..])[(oh * 125 + ow) * 64..]
      {
        Conv2Step(dev, input, width, weights, bs, zY, round, output, start, oh * 125 + ow);
        ow := ow + 1;
      }
      oh := oh + 1;
    }
  }
}
