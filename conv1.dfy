/**
  `conv_with_accelerator_parallel` (Microblaze/ACC.c:454-511), the first
  convolution: a 124 x 129 single-channel input, 32 filters of 3x3
  weights, a 122 x 127 x 32 channel-last output. Every operation the
  layer starts and every activation it stores is specified by a function
  of the input, the weights and the accelerator's answers.
*/
module Conv1Layer {
  import opened Bytes
  import opened Accelerator
  import opened Layers

  /** Number of conv1 outputs: 122 * 127 * 32. */
  const Conv1Size: nat := 495808

  /** The shapes conv1 reads: rows at least 129 wide, enough of them for
      the last window, and 32 filters of nine weights. */
  predicate Conv1Inputs(image: seq<Int8>, width: nat, filters: seq<Int8>) {
    && width >= 129
    && 123 * width + 129 <= |image|
    && |filters| >= 32 * 9
  }

  /** Tap `k` of the 3x3 window whose top-left pixel is (row, col) of a
      row-major single-channel image `width` pixels wide:
      `in_patch[r * 3 + c] = input[(row + r) * width + (col + c)]` with
      k = r * 3 + c. */
  function Tap(image: seq<Int8>, width: nat, row: nat, col: nat, k: nat): Int8
    requires width >= 129 && 123 * width + 129 <= |image| && row < 122 && col < 127 && k < 9
  {
    MulLe(row + k / 3, 123, width);
    image[(row + k / 3) * width + (col + k % 3)]
  }

  /** The window itself, taps in order. */
  function Patch(image: seq<Int8>, width: nat, row: nat, col: nat): (p: seq<Int8>)
    requires width >= 129 && 123 * width + 129 <= |image| && row < 122 && col < 127
    ensures |p| == 9
  {
    seq(9, k requires 0 <= k < 9 => Tap(image, width, row, col, k))
  }

  /** The operation started for filter `f` of a pixel whose window is
      `patch` (Microblaze/ACC.c:478-490): the window and the filter's nine
      weights, in slot f mod 2, with PE mask 1 << (f mod 8). */
  function PixelOp(patch: seq<Int8>, filters: seq<Int8>, f: nat): Op
    requires |patch| == 9 && 9 * f + 9 <= |filters|
  {
    Op(f % 2, Unsigned(patch), Unsigned(filters[9 * f..9 * f + 9]), PeMask(f))
  }

  /** The activation stored for filter `f` of that pixel
      (Microblaze/ACC.c:498-506): the accelerator's answer plus the bias,
      in 32-bit arithmetic, rescaled with filter f's scale and clamped. */
  function PixelValue(respond: Op -> U32, patch: seq<Int8>, filters: seq<Int8>, biases: seq<Int32>,
                      zY: int, round: Rescale, f: nat): Int8
    requires |patch| == 9 && 9 * f + 9 <= |filters| && f < |biases|
  {
    Requantize(round, f, AsInt32(respond(PixelOp(patch, filters, f)) + biases[f]), zY)
  }

  /** The 32 operations of one pixel, in the filter order conv1 starts
      them. */
  function PixelOps(patch: seq<Int8>, filters: seq<Int8>): (ops: seq<Op>)
    requires |patch| == 9 && |filters| >= 32 * 9
    ensures |ops| == 32
    ensures forall f {:trigger PixelOp(patch, filters, f)} | 0 <= f < 32 :: ops[f] == PixelOp(patch, filters, f)
  {
    seq(32, f requires 0 <= f < 32 => PixelOp(patch, filters, f))
  }

  /** The 32 activations of one pixel, by filter. */
  function PixelValues(respond: Op -> U32, patch: seq<Int8>, filters: seq<Int8>, biases: seq<Int32>,
                       zY: int, round: Rescale): (vs: seq<Int8>)
    requires |patch| == 9 && |filters| >= 32 * 9 && |biases| >= 32
    ensures |vs| == 32
    ensures forall f {:trigger PixelValue(respond, patch, filters, biases, zY, round, f)} | 0 <= f < 32 ::
              vs[f] == PixelValue(respond, patch, filters, biases, zY, round, f)
  {
    seq(32, f requires 0 <= f < 32 => PixelValue(respond, patch, filters, biases, zY, round, f))
  }

  /** The operations conv1 starts for its first `n` pixels in row-major
      order (pixel p is row p / 127, column p % 127). */
  function Conv1Ops(image: seq<Int8>, width: nat, filters: seq<Int8>, n: nat): (ops: seq<Op>)
    requires Conv1Inputs(image, width, filters) && n <= 122 * 127
  {
    if n == 0 then []
    else Conv1Ops(image, width, filters, n - 1) + PixelOps(Patch(image, width, (n - 1) / 127, (n - 1) % 127), filters)
  }

  /** The activations conv1 stores for its first `n` pixels. */
  function Conv1Values(image: seq<Int8>, width: nat, filters: seq<Int8>, biases: seq<Int32>,
                       zY: int, round: Rescale, respond: Op -> U32, n: nat): (vs: seq<Int8>)
    requires Conv1Inputs(image, width, filters) && |biases| >= 32 && n <= 122 * 127
  {
    if n == 0 then []
    else Conv1Values(image, width, filters, biases, zY, round, respond, n - 1)
         + PixelValues(respond, Patch(image, width, (n - 1) / 127, (n - 1) % 127), filters, biases, zY, round)
  }

  /** Entry `(h * 127 + w) * 32 + f` of conv1's operations is filter f
      applied to the 3x3 window whose top-left pixel is (h, w), in slot
      f mod 2 with PE mask 1 << (f mod 8); there are 32 per pixel. */
  lemma {:induction false} Conv1OpsAt(image: seq<Int8>, width: nat, filters: seq<Int8>, n: nat,
                                      h: nat, w: nat, f: nat)
    requires Conv1Inputs(image, width, filters) && n <= 122 * 127
    requires w < 127 && f < 32 && h * 127 + w < n
    ensures |Conv1Ops(image, width, filters, n)| == 32 * n
    ensures Conv1Ops(image, width, filters, n)[(h * 127 + w) * 32 + f]
            == Op(f % 2, Unsigned(Patch(image, width, h, w)), Unsigned(filters[9 * f..9 * f + 9]), PeMask(f))
  {
    var p := h * 127 + w;
    if p == n - 1 {
      Conv1OpsLength(image, width, filters, n - 1);
      assert (n - 1) / 127 == h && (n - 1) % 127 == w;
    } else {
      Conv1OpsAt(image, width, filters, n - 1, h, w, f);
    }
  }

  /** Conv1 starts 32 operations per pixel. */
  lemma {:induction false} Conv1OpsLength(image: seq<Int8>, width: nat, filters: seq<Int8>, n: nat)
    requires Conv1Inputs(image, width, filters) && n <= 122 * 127
    ensures |Conv1Ops(image, width, filters, n)| == 32 * n
  {
    if n > 0 {
      Conv1OpsLength(image, width, filters, n - 1);
    }
  }

  /** Entry `(h * 127 + w) * 32 + f` of conv1's activations is filter f's
      requantized answer for window (h, w): the accelerator's word plus
      bias f, wrapped to 32 bits, rescaled with scale f, plus the output
      zero point, clamped to 0..127. */
  lemma {:induction false} Conv1ValuesAt(image: seq<Int8>, width: nat, filters: seq<Int8>, biases: seq<Int32>,
                                         zY: int, round: Rescale, respond: Op -> U32, n: nat,
                                         h: nat, w: nat, f: nat)
    requires Conv1Inputs(image, width, filters) && |biases| >= 32 && n <= 122 * 127
    requires w < 127 && f < 32 && h * 127 + w < n
    ensures |Conv1Values(image, width, filters, biases, zY, round, respond, n)| == 32 * n
    ensures Conv1Values(image, width, filters, biases, zY, round, respond, n)[(h * 127 + w) * 32 + f]
            == Requantize(round, f, AsInt32(respond(PixelOp(Patch(image, width, h, w), filters, f)) + biases[f]), zY)
  {
    var p := h * 127 + w;
    Conv1ValuesLength(image, width, filters, biases, zY, round, respond, n);
    Conv1OpsAt(image, width, filters, n, h, w, f);
    if p == n - 1 {
      Conv1ValuesLength(image, width, filters, biases, zY, round, respond, n - 1);
      assert (n - 1) / 127 == h && (n - 1) % 127 == w;
    } else {
      Conv1ValuesAt(image, width, filters, biases, zY, round, respond, n - 1, h, w, f);
    }
  }

  /** Conv1 stores 32 activations per pixel. */
  lemma {:induction false} Conv1ValuesLength(image: seq<Int8>, width: nat, filters: seq<Int8>, biases: seq<Int32>,
                                             zY: int, round: Rescale, respond: Op -> U32, n: nat)
    requires Conv1Inputs(image, width, filters) && |biases| >= 32 && n <= 122 * 127
    ensures |Conv1Values(image, width, filters, biases, zY, round, respond, n)| == 32 * n
  {
    if n > 0 {
      Conv1ValuesLength(image, width, filters, biases, zY, round, respond, n - 1);
    }
  }

  /** The window extraction at the top of conv1's pixel loop
      (Microblaze/ACC.c:466-473). */
  method ExtractPatch(input: array<Int8>, width: nat, row: nat, col: nat) returns (patch: seq<Int8>)
    requires width >= 129 && 123 * width + 129 <= input.Length && row < 122 && col < 127
    ensures patch == Patch(input[..], width, row, col)
  {
    var inPatch := new Int8[9];
    for r := 0 to 3
      invariant forall k | 0 <= k < 3 * r :: inPatch[k] == Tap(input[..], width, row, col, k)
    {
      MulLe(row + r, 123, width);
      for c := 0 to 3
        invariant forall k | 0 <= k < 3 * r + c :: inPatch[k] == Tap(input[..], width, row, col, k)
      {
        assert (r * 3 + c) / 3 == r && (r * 3 + c) % 3 == c;
        inPatch[r * 3 + c] := input[(row + r) * width + (col + c)];
      }
    }
    patch := inPatch[..];
  }

  /** The store half of that pass (Microblaze/ACC.c:498-506): answer `j`
      plus filter `group + j`'s bias, wrapped to 32 bits and requantized,
      lands at `output[at + j]`, and nothing else in `output` changes. */
  method StorePair(results: seq<U32>, biases: seq<Int32>, zY: int, round: Rescale,
                   output: array<Int8>, at: nat, group: nat)
    requires |results| == 2 && group + 2 <= |biases| && at + 2 <= output.Length
    modifies output
    ensures output[..] == old(output[..])[..at]
              + [Requantize(round, group, AsInt32(results[0] + biases[group]), zY),
                 Requantize(round, group + 1, AsInt32(results[1] + biases[group + 1]), zY)]
              + old(output[..])[at + 2..]
  {
    ghost var values := [Requantize(round, group, AsInt32(results[0] + biases[group]), zY),
                         Requantize(round, group + 1, AsInt32(results[1] + biases[group + 1]), zY)];
    for j := 0 to 2
      invariant output[..] == old(output[..])[..at] + values[..j] + old(output[..])[at + j..]
    {
      var f := group + j;
      var mac := AsInt32(results[j] + biases[f]);
      var scaled := round(f, mac) + zY;
      if scaled < 0 { scaled := 0; }
      if scaled > 127 { scaled := 127; }
      output[at + j] := scaled;
      assert values[..j + 1] == values[..j] + [values[j]];
    }
  }

  /** One pass of conv1's filter loop (Microblaze/ACC.c:476-507): the
      pixel's operations for filters `group` and `group + 1` are started,
      in that order, and its activations for them land at `output[at]` and
      `output[at + 1]`; nothing else in `output` changes. */
  method Conv1Pair(dev: Device, patch: seq<Int8>, filters: seq<Int8>, biases: seq<Int32>,
                   zY: int, round: Rescale, output: array<Int8>, at: nat, group: nat)
    requires dev.Valid() && dev.Drained()
    requires |patch| == 9 && group % 2 == 0 && group + 2 <= 32 && |filters| >= 32 * 9 && |biases| >= 32
    requires at + 2 <= output.Length
    modifies dev, dev.registers, output
    ensures dev.Valid() && dev.Drained()
    ensures var ops := PixelOps(patch, filters);
            dev.issued == old(dev.issued) + [ops[group], ops[group + 1]]
    ensures var values := PixelValues(dev.respond, patch, filters, biases, zY, round);
            output[at] == values[group] && output[at + 1] == values[group + 1]
    ensures forall k | 0 <= k < output.Length && k != at && k != at + 1 :: output[k] == old(output[k])
  {
    assert (group + 1) % 2 == 1;
    var results := RunPair(dev, patch, filters[9 * group..9 * group + 9], PeMask(group),
                           patch, filters[9 * (group + 1)..9 * (group + 1) + 9], PeMask(group + 1));
    StorePair(results, biases, zY, round, output, at, group);
  }

  /** The filter loop of one conv1 output pixel (Microblaze/ACC.c:476-507):
      sixteen pairs start the pixel's 32 operations in filter order, and its
      32 activations are stored from `output[base]` on; nothing else
      changes. */
  method Conv1Pixel(dev: Device, patch: seq<Int8>, filters: seq<Int8>, biases: seq<Int32>,
                    zY: int, round: Rescale, output: array<Int8>, base: nat)
    requires dev.Valid() && dev.Drained()
    requires |patch| == 9 && |filters| >= 32 * 9 && |biases| >= 32 && base + 32 <= output.Length
    modifies dev, dev.registers, output
    ensures dev.Valid() && dev.Drained()
    ensures dev.issued == old(dev.issued) + PixelOps(patch, filters)
    ensures output[..] == old(output[..])[..base]
              + PixelValues(dev.respond, patch, filters, biases, zY, round)
              + old(output[..])[base + 32..]
  {
    ghost var ops, values := PixelOps(patch, filters), PixelValues(dev.respond, patch, filters, biases, zY, round);
    ghost var prior, start := dev.issued, output[..];
    for pair := 0 to 16
      invariant dev.Valid() && dev.Drained()
      invariant dev.issued == prior + ops[..2 * pair]
      invariant forall k | base <= k < base + 2 * pair :: output[k] == values[k - base]
      invariant forall k | 0 <= k < output.Length && !(base <= k < base + 2 * pair) :: output[k] == start[k]
    {
      var group := 2 * pair;
      Conv1Pair(dev, patch, filters, biases, zY, round, output, base + group, group);
      Append2(prior, ops, group);
    }
    assert output[..] == start[..base] + values + start[base + 32..];
  }

  /** One iteration of conv1's pixel loop (Microblaze/ACC.c:463-508) for
      pixel p = oh * 127 + ow, once its window is extracted: the operations
      started and the activations stored so far grow from conv1's first p
      pixels to its first p + 1, and the outputs past them stay as they
      were. */
  method Conv1Step(dev: Device, ghost image: seq<Int8>, width: nat, filters: seq<Int8>, biases: seq<Int32>,
                   zY: int, round: Rescale, output: array<Int8>, patch: seq<Int8>, oh: nat, ow: nat)
    requires Conv1Inputs(image, width, filters) && |biases| >= 32 && oh < 122 && ow < 127
    requires patch == Patch(image, width, oh, ow) && output.Length >= Conv1Size
    requires dev.Valid() && dev.Drained() && dev.issued == Conv1Ops(image, width, filters, oh * 127 + ow)
    requires output[..(oh * 127 + ow) * 32]
             == Conv1Values(image, width, filters, biases, zY, round, dev.respond, oh * 127 + ow)
    modifies dev, dev.registers, output
    ensures dev.Valid() && dev.Drained() && dev.issued == Conv1Ops(image, width, filters, oh * 127 + ow + 1)
    ensures output[..(oh * 127 + ow + 1) * 32]
            == Conv1Values(image, width, filters, biases, zY, round, dev.respond, oh * 127 + ow + 1)
    ensures output[(oh * 127 + ow + 1) * 32..] == old(output[..])[(oh * 127 + ow + 1) * 32..]
  {
    var p := oh * 127 + ow;
    Conv1ValuesLength(image, width, filters, biases, zY, round, dev.respond, p);
    Conv1Pixel(dev, patch, filters, biases, zY, round, output, p * 32);
    assert (p + 1 - 1) / 127 == oh && (p + 1 - 1) % 127 == ow;
    ghost var values := PixelValues(dev.respond, patch, filters, biases, zY, round);
    assert Conv1Values(image, width, filters, biases, zY, round, dev.respond, p + 1)
           == Conv1Values(image, width, filters, biases, zY, round, dev.respond, p) + values;
    SplicedParts(old(output[..]), values, p * 32);
  }

  /** `conv_with_accelerator_parallel` (Microblaze/ACC.c:454-511): the
      output offset is rewound, then every output pixel in row-major order
      has its window extracted and its 32 filters run in pairs. The
      operations started are exactly conv1's operations, the first
      122 * 127 * 32 outputs are exactly its activations, and nothing past
      them is written. */
  method Conv1(dev: Device, input: array<Int8>, width: nat, filters: array<Int8>, biases: array<Int32>,
               zY: int, round: Rescale, output: array<Int8>)
    requires dev.Valid()
    requires Conv1Inputs(input[..], width, filters[..]) && biases.Length >= 32 && output.Length >= Conv1Size
    requires output != input && output != filters
    modifies dev, dev.registers, output
    ensures dev.Valid() && dev.Drained()
    ensures dev.issued == Conv1Ops(input[..], width, filters[..], 122 * 127)
    ensures output[..Conv1Size] == Conv1Values(input[..], width, filters[..], biases[..], zY, round, dev.respond, 122 * 127)
    ensures output[Conv1Size..] == old(output[Conv1Size..])
  {
    ghost var image := input[..];
    var weights, bs := filters[..], biases[..];
    dev.Rewind();
    var oh := 0;
    while oh < 122
      invariant oh <= 122 && dev.Valid() && dev.Drained()
      invariant dev.issued == Conv1Ops(image, width, weights, oh * 127)
      invariant output[..oh * 127 * 32] == Conv1Values(image, width, weights, bs, zY, round, dev.respond, oh * 127)
      invariant output[oh * 127 * 32..] == old(output[..])[oh * 127 * 32..]
    {
      var ow := 0;
      while ow < 127
        invariant ow <= 127 && dev.Valid() && dev.Drained()
        invariant dev.issued == Conv1Ops(image, width, weights, oh * 127 + ow)
        invariant output[..(oh * 127 + ow) * 32]
                  == Conv1Values(image, width, weights, bs, zY, round, dev.respond, oh * 127 + ow)
        invariant output[(oh * 127 + ow) * 32..] == old(output[..])[(oh * 127 + ow) * 32..]
      {
        var patch := ExtractPatch(input, width, oh, ow);
        Conv1Step(dev, image, width, weights, bs, zY, round, output, patch, oh, ow);
        ow := ow + 1;
      }
      oh := oh + 1;
    }
  }
}
