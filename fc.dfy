/**
  `fc_with_accelerator_parallel` (Microblaze/ACC.c:627-690), the fully
  connected layers: every output neuron m takes the dot product of the
  input with row m of the weights on the accelerator, nine elements per
  operation. The input's full 9-element blocks run in pairs, the first of
  a pair in slot 0 and the second in slot 1, with PE mask 1 << (m mod 8);
  when the number of full blocks is odd the last one runs alone in slot 0.
  A last partial block, zero-padded to nine, runs in slot 0 with PE mask
  0x01. The answers are summed in 32-bit arithmetic, the bias is added,
  and the sum is rescaled with the FIRST weight scale for every neuron
  (`weight_scales[0]`), plus the output zero point, clamped to 0..127.

  Like conv2, the layer does not rewind the accelerator's output offset:
  it keeps reading forward from where the previous layer left it.
*/
module FullyConnected {
  import opened Bytes
  import opened Accelerator
  import opened Layers

  /** A block shorter than nine, zero-filled to nine: the
      `memset`/`memcpy` of `padded_block` and `padded_weights`. */
  function Padded(xs: seq<Int8>): (p: seq<Int8>)
    requires |xs| <= 9
    ensures |p| == 9
    ensures forall k | 0 <= k < |xs| :: p[k] == xs[k]
    ensures forall k | |xs| <= k < 9 :: p[k] == 0
  {
    xs + seq(9 - |xs|, _ => 0)
  }

  /** The shapes neuron m reads: `length` inputs and a weight row of
      `length` values from m * length on. */
  predicate NeuronInputs(input: seq<Int8>, weights: seq<Int8>, length: nat, m: nat) {
    length <= |input| && Mul(m, length) + length <= |weights|
  }

  /** The operation for full block b of neuron m: input[9b..9b+9] against
      weights[m * length + 9b..][..9], in slot b mod 2 (the first of a pair
      in slot 0, the second in slot 1), with PE mask 1 << (m mod 8). */
  function BlockOp(input: seq<Int8>, weights: seq<Int8>, length: nat, m: nat, b: nat): Op
    requires NeuronInputs(input, weights, length, m) && b < length / 9
  {
    var at := Mul(m, length) + 9 * b;
    Op(b % 2, Unsigned(input[9 * b..9 * b + 9]), Unsigned(weights[at..at + 9]), PeMask(m))
  }

  /** The operation for the partial block of neuron m: the last
      length mod 9 inputs and weights, zero-padded, in slot 0 with PE
      mask 0x01. */
  function RemainderOp(input: seq<Int8>, weights: seq<Int8>, length: nat, m: nat): Op
    requires NeuronInputs(input, weights, length, m)
  {
    var from := 9 * (length / 9);
    Op(0, Unsigned(Padded(input[from..length])),
       Unsigned(Padded(weights[Mul(m, length) + from..Mul(m, length) + length])), 1)
  }

  /** The operations neuron m starts, in order: one per full block, then
      one for the partial block if there is one. */
  function NeuronOps(input: seq<Int8>, weights: seq<Int8>, length: nat, m: nat): (ops: seq<Op>)
    requires NeuronInputs(input, weights, length, m)
  {
    seq(length / 9, b requires 0 <= b < length / 9 => BlockOp(input, weights, length, m, b))
    + (if length % 9 > 0 then [RemainderOp(input, weights, length, m)] else [])
  }

  /** The accelerator's answers to `ops`, in order. */
  function Responses(respond: Op -> U32, ops: seq<Op>): (rs: seq<U32>)
    ensures |rs| == |ops|
    ensures forall i | 0 <= i < |ops| :: rs[i] == respond(ops[i])
  {
    seq(|ops|, i requires 0 <= i < |ops| => respond(ops[i]))
  }

  /** `total_acc += results[j]` over the words `xs` from 0: each addition
      of a `uint32_t` to the `int` accumulator wraps to 32 bits. */
  function WrappedSum(xs: seq<U32>): Int32 {
    if |xs| == 0 then 0
    else AsInt32(WrappedSum(xs[..|xs| - 1]) + xs[|xs| - 1])
  }

  /** The plain sum of `xs`. */
  function Sum(xs: seq<U32>): int {
    if |xs| == 0 then 0 else Sum(xs[..|xs| - 1]) + xs[|xs| - 1]
  }

  /** The activation stored for neuron m: the wrapped sum of its answers
      plus its bias, wrapped to 32 bits, rescaled with weight scale 0, plus
      the output zero point, clamped. */
  function NeuronValue(respond: Op -> U32, input: seq<Int8>, weights: seq<Int8>, biases: seq<Int32>,
                       length: nat, zY: int, round: Rescale, m: nat): Int8
    requires NeuronInputs(input, weights, length, m) && m < |biases|
  {
    var total := WrappedSum(Responses(respond, NeuronOps(input, weights, length, m)));
    Requantize(round, 0, AsInt32(total + biases[m]), zY)
  }

  /** The operations the layer starts for its first `n` neurons. */
  function FcOps(input: seq<Int8>, weights: seq<Int8>, length: nat, n: nat): seq<Op>
    requires length <= |input| && Mul(n, length) <= |weights|
  {
    if n == 0 then []
    else
      FcOps(input, weights, length, n - 1) + NeuronOps(input, weights, length, n - 1)
  }

  /** The activations of the first `n` neurons. */
  function FcValues(respond: Op -> U32, input: seq<Int8>, weights: seq<Int8>, biases: seq<Int32>,
                    length: nat, zY: int, round: Rescale, n: nat): (vs: seq<Int8>)
    requires length <= |input| && Mul(n, length) <= |weights| && n <= |biases|
    ensures |vs| == n
  {
    seq(n, m requires 0 <= m < n =>
      MulMonotone(m + 1, n, length);
      NeuronValue(respond, input, weights, biases, length, zY, round, m))
  }

  /** The activations of the first n + 1 neurons are those of the first
      n and then neuron n's. */
  lemma FcValuesNext(respond: Op -> U32, input: seq<Int8>, weights: seq<Int8>, biases: seq<Int32>,
                     length: nat, zY: int, round: Rescale, n: nat)
    requires length <= |input| && Mul(n + 1, length) <= |weights| && n < |biases|
    ensures FcValues(respond, input, weights, biases, length, zY, round, n + 1)
            == FcValues(respond, input, weights, biases, length, zY, round, n)
               + [NeuronValue(respond, input, weights, biases, length, zY, round, n)]
  {
  }

  /** Neuron m starts ceil(length / 9) operations. Full block b runs in
      slot b mod 2 with PE mask 1 << (m mod 8), and the partial block, if
      any, in slot 0 with mask 0x01; every operation has nine lanes. */
  lemma NeuronOpsShape(input: seq<Int8>, weights: seq<Int8>, length: nat, m: nat)
    requires NeuronInputs(input, weights, length, m)
    ensures var ops := NeuronOps(input, weights, length, m);
      && |ops| == (length + 8) / 9
      && (forall b | 0 <= b < |ops| ::
            && |ops[b].input| == 9 && |ops[b].filter| == 9
            && (b < length / 9 ==> ops[b].slot == b % 2 && ops[b].peMask == PeMask(m))
            && (b == length / 9 ==> ops[b].slot == 0 && ops[b].peMask == 1))
  {
    var ops := NeuronOps(input, weights, length, m);
    forall b | 0 <= b < |ops|
      ensures |ops[b].input| == 9 && |ops[b].filter| == 9
      ensures b < length / 9 ==> ops[b].slot == b % 2 && ops[b].peMask == PeMask(m)
      ensures b == length / 9 ==> ops[b].slot == 0 && ops[b].peMask == 1
    {
      if b < length / 9 {
        assert ops[b] == BlockOp(input, weights, length, m, b);
      } else {
        assert ops[b] == RemainderOp(input, weights, length, m);
      }
    }
  }

  /** Input i and weight m * length + i of a full block go to lane
      i mod 9 of block i / 9's operation. */
  lemma BlockOpLanes(input: seq<Int8>, weights: seq<Int8>, length: nat, m: nat, i: nat)
    requires NeuronInputs(input, weights, length, m) && i < 9 * (length / 9)
    ensures var op := BlockOp(input, weights, length, m, i / 9);
      && |op.input| == 9 && |op.filter| == 9
      && op.input[i % 9] == ToByte(input[i])
      && op.filter[i % 9] == ToByte(weights[Mul(m, length) + i])
  {
    var b, k, row := i / 9, i % 9, Mul(m, length);
    assert input[9 * b..9 * b + 9][k] == input[i];
    assert weights[row + 9 * b..row + 9 * b + 9][k] == weights[row + i];
  }

  /** Input i and weight m * length + i of the partial block go to lane
      i mod 9 of its operation. */
  lemma RemainderOpLanes(input: seq<Int8>, weights: seq<Int8>, length: nat, m: nat, i: nat)
    requires NeuronInputs(input, weights, length, m) && 9 * (length / 9) <= i < length
    ensures var op := RemainderOp(input, weights, length, m);
      && |op.input| == 9 && |op.filter| == 9
      && op.input[i % 9] == ToByte(input[i])
      && op.filter[i % 9] == ToByte(weights[Mul(m, length) + i])
  {
    var from, row := 9 * (length / 9), Mul(m, length);
    var k := i - from;
    assert length == from + length % 9;
    assert i % 9 == k;
    assert Padded(input[from..length])[k] == input[i];
    assert Padded(weights[row + from..row + length])[k] == weights[row + i];
  }

  /** Input i and weight m * length + i go to lane i mod 9 of operation
      i / 9: the operations together cover the whole dot product. */
  lemma NeuronOpsLanes(input: seq<Int8>, weights: seq<Int8>, length: nat, m: nat, i: nat)
    requires NeuronInputs(input, weights, length, m) && i < length
    ensures var ops := NeuronOps(input, weights, length, m);
      && i / 9 < |ops| && |ops[i / 9].input| == 9 && |ops[i / 9].filter| == 9
      && ops[i / 9].input[i % 9] == ToByte(input[i])
      && ops[i / 9].filter[i % 9] == ToByte(weights[Mul(m, length) + i])
  {
    var ops := NeuronOps(input, weights, length, m);
    if i / 9 < length / 9 {
      BlockOpLanes(input, weights, length, m, i);
      assert ops[i / 9] == BlockOp(input, weights, length, m, i / 9);
    } else {
      RemainderOpLanes(input, weights, length, m, i);
      assert ops[i / 9] == RemainderOp(input, weights, length, m);
    }
  }

  /** The lanes of the partial block's operation past its length mod 9
      values are zero, in the input and in the weights. */
  lemma NeuronOpsPadding(input: seq<Int8>, weights: seq<Int8>, length: nat, m: nat, k: nat)
    requires NeuronInputs(input, weights, length, m) && length % 9 > 0 && length % 9 <= k < 9
    ensures var ops := NeuronOps(input, weights, length, m);
      && length / 9 < |ops| && |ops[length / 9].input| == 9 && |ops[length / 9].filter| == 9
      && ops[length / 9].input[k] == 0 && ops[length / 9].filter[k] == 0
  {
    var ops := NeuronOps(input, weights, length, m);
    assert ops[length / 9] == RemainderOp(input, weights, length, m);
  }

  /** Wrapping every partial sum to 32 bits gives the true sum wrapped
      once. */
  lemma {:induction false} WrappedSumIsSum(xs: seq<U32>)
    ensures WrappedSum(xs) == AsInt32(Sum(xs))
  {
    if |xs| > 0 {
      var init := xs[..|xs| - 1];
      WrappedSumIsSum(init);
      AsInt32Add(Sum(init), xs[|xs| - 1]);
    }
  }

  /** Answer k added to the wrapped sum of the answers before it. */
  lemma WrappedSumNext(respond: Op -> U32, ops: seq<Op>, k: nat)
    requires k < |ops|
    ensures WrappedSum(Responses(respond, ops[..k + 1]))
            == AsInt32(WrappedSum(Responses(respond, ops[..k])) + respond(ops[k]))
  {
    assert Responses(respond, ops[..k + 1])[..k] == Responses(respond, ops[..k]);
  }

  /** A 20-element input for neuron 9: two full blocks in slots 0 and 1
      with mask 1 << 1, then the last two elements padded with seven zeros
      in slot 0 with mask 0x01. */
  lemma TwentyInputs(input: seq<Int8>, weights: seq<Int8>)
    requires |input| == 20 && |weights| >= 200
    ensures NeuronInputs(input, weights, 20, 9)
    ensures var ops := NeuronOps(input, weights, 20, 9);
      && |ops| == 3
      && ops[0].slot == 0 && ops[1].slot == 1 && ops[2].slot == 0
      && ops[0].peMask == 2 && ops[1].peMask == 2 && ops[2].peMask == 1
      && ops[2].input == Unsigned(input[18..] + [0, 0, 0, 0, 0, 0, 0])
      && ops[2].filter == Unsigned(weights[198..200] + [0, 0, 0, 0, 0, 0, 0])
  {
    assert Mul(9, 20) == 180 by {
      MulIsProduct(9, 20);
    }
    var ops := NeuronOps(input, weights, 20, 9);
    assert ops[2] == RemainderOp(input, weights, 20, 9);
    assert PeMask(9) == 2;
    assert Padded(input[18..20]) == input[18..] + [0, 0, 0, 0, 0, 0, 0];
  }

  /** `ops` start with one operation per full block of neuron m and end
      with the partial block's, if there is one. */
  ghost predicate NeuronOpsAre(ops: seq<Op>, input: seq<Int8>, weights: seq<Int8>, length: nat, m: nat)
    requires NeuronInputs(input, weights, length, m)
  {
    && |ops| == length / 9 + (if length % 9 > 0 then 1 else 0)
    && (forall b {:trigger BlockOp(input, weights, length, m, b)} | 0 <= b < length / 9 ::
          ops[b] == BlockOp(input, weights, length, m, b))
    && (length % 9 > 0 ==> ops[length / 9] == RemainderOp(input, weights, length, m))
  }

  /** The entries of `NeuronOps`: full block b's operation, then the
      partial block's. */
  lemma NeuronOpsAt(input: seq<Int8>, weights: seq<Int8>, length: nat, m: nat)
    requires NeuronInputs(input, weights, length, m)
    ensures NeuronOpsAre(NeuronOps(input, weights, length, m), input, weights, length, m)
  {
  }

  /** Starts full block b of neuron m (Microblaze/ACC.c:645-656): the
      input block from 9b and the weight block from m * length + 9b, in
      buffer set b mod 2 (0 for the first of a pair, 1 for the second);
      the operation started is ops[b]. */
  method StartBlock(dev: Device, input: seq<Int8>, weights: seq<Int8>, length: nat, m: nat, b: nat, ghost ops: seq<Op>)
    requires dev.Valid() && NeuronInputs(input, weights, length, m) && NeuronOpsAre(ops, input, weights, length, m)
    requires b < length / 9
    modifies dev, dev.registers
    ensures dev.Valid() && dev.outputOffset == old(dev.outputOffset)
    ensures dev.issued == old(dev.issued) + [ops[b]]
  {
    var row := m * length;
    MulIsProduct(m, length);
    assert 9 * b + 9 <= length;
    assert ops[b] == BlockOp(input, weights, length, m, b);
    dev.Dispatch(input[9 * b..9 * b + 9], weights[row + 9 * b..row + 9 * b + 9], b % 2, PeMask(m));
  }

  /** Starts the partial block of neuron m (Microblaze/ACC.c:665-678):
      the last length mod 9 inputs and weights, zero-padded to nine, in
      buffer set 0 with PE mask 0x01; the operation started is the last
      of `ops`. */
  method StartRemainder(dev: Device, input: seq<Int8>, weights: seq<Int8>, length: nat, m: nat, ghost ops: seq<Op>)
    requires dev.Valid() && NeuronInputs(input, weights, length, m) && NeuronOpsAre(ops, input, weights, length, m)
    requires length % 9 > 0
    modifies dev, dev.registers
    ensures dev.Valid() && dev.outputOffset == old(dev.outputOffset)
    ensures dev.issued == old(dev.issued) + [ops[length / 9]]
  {
    var from, row := 9 * (length / 9), m * length;
    MulIsProduct(m, length);
    var paddedBlock := Padded(input[from..length]);
    var paddedWeights := Padded(weights[row + from..row + length]);
    dev.Dispatch(paddedBlock, paddedWeights, 0, 0x01);
  }

  /** The loop `total_acc += results[j]` (Microblaze/ACC.c:659-661):
      adding the words of `results` to the wrapped sum of `before` gives
      the wrapped sum of both. */
  method AddAnswers(total: Int32, results: seq<U32>, ghost before: seq<U32>) returns (total': Int32)
    requires total == WrappedSum(before)
    ensures total' == WrappedSum(before + results)
  {
    total' := total;
    assert before + results[..0] == before;
    for j := 0 to |results|
      invariant total' == WrappedSum(before + results[..j])
    {
      assert (before + results[..j + 1])[..|before| + j] == before + results[..j];
      total' := AsInt32(total' as int + results[j]);
    }
    assert results[..|results|] == results;
  }

  /** The answers to the `n` operations after the first `b` of `ops`,
      read from an accelerator that has started `prior` and then the first
      b + n of `ops`, extend the answers to the first `b`. */
  lemma ResponsesExtend(respond: Op -> U32, issued: seq<Op>, prior: seq<Op>, ops: seq<Op>, b: nat, n: nat)
    requires b + n <= |ops| && issued == prior + ops[..b + n]
    ensures Responses(respond, ops[..b]) + Answers(issued, respond, |prior| + b, n)
            == Responses(respond, ops[..b + n])
  {
    var rs := Answers(issued, respond, |prior| + b, n);
    forall j | 0 <= j < n
      ensures rs[j] == respond(ops[b + j])
    {
      assert issued[|prior| + b + j] == ops[b + j];
    }
  }

  /** One pass of the block loop of neuron m (Microblaze/ACC.c:641-662)
      at full block b: block b and, when block b + 1 is also full, block
      b + 1 are started, their answers read back and added to the
      accumulator in 32-bit arithmetic. `ops` are the neuron's operations. */
  method BlockPair(dev: Device, input: seq<Int8>, weights: seq<Int8>, length: nat, m: nat, b: nat,
                   total: Int32, ghost ops: seq<Op>, ghost prior: seq<Op>) returns (total': Int32)
    requires dev.Valid() && dev.Drained()
    requires NeuronInputs(input, weights, length, m) && NeuronOpsAre(ops, input, weights, length, m)
    requires b % 2 == 0 && b < length / 9
    requires dev.issued == prior + ops[..b]
    requires total == WrappedSum(Responses(dev.respond, ops[..b]))
    modifies dev, dev.registers
    ensures dev.Valid() && dev.Drained()
    ensures var next := if b + 2 <= length / 9 then b + 2 else b + 1;
            && dev.issued == prior + ops[..next]
            && total' == WrappedSum(Responses(dev.respond, ops[..next]))
  {
    var numOps := if b + 2 <= length / 9 then 2 else 1;
    StartBlock(dev, input, weights, length, m, b, ops);
    assert ops[..b + 1] == ops[..b] + [ops[b]];
    AppendAssoc(prior, ops[..b], [ops[b]]);
    if numOps == 2 {
      StartBlock(dev, input, weights, length, m, b + 1, ops);
      assert ops[..b + 2] == ops[..b + 1] + [ops[b + 1]];
      AppendAssoc(prior, ops[..b + 1], [ops[b + 1]]);
    }
    assert dev.issued == prior + ops[..b + numOps];
    var results := dev.ReadResults(numOps);
    ResponsesExtend(dev.respond, dev.issued, prior, ops, b, numOps);
    total' := AddAnswers(total, results, Responses(dev.respond, ops[..b]));
  }

  /** The block loop of neuron m (Microblaze/ACC.c:641-662): the full
      blocks start in pairs, and the accumulator ends as the wrapped sum
      of their answers. */
  method FullBlocks(dev: Device, input: seq<Int8>, weights: seq<Int8>, length: nat, m: nat, ghost ops: seq<Op>)
    returns (total: Int32)
    requires dev.Valid() && dev.Drained()
    requires NeuronInputs(input, weights, length, m) && NeuronOpsAre(ops, input, weights, length, m)
    modifies dev, dev.registers
    ensures dev.Valid() && dev.Drained()
    ensures dev.issued == old(dev.issued) + ops[..length / 9]
    ensures total == WrappedSum(Responses(dev.respond, ops[..length / 9]))
  {
    ghost var prior := dev.issued;
    var fullBlocks := length / 9;
    total := 0;
    var b := 0;
    while b < fullBlocks
      invariant b % 2 == 0 && b <= fullBlocks + 1
      invariant dev.Valid() && dev.Drained()
      invariant var done := if b <= fullBlocks then b else fullBlocks;
                && dev.issued == prior + ops[..done]
                && total == WrappedSum(Responses(dev.respond, ops[..done]))
      decreases fullBlocks + 1 - b
    {
      total := BlockPair(dev, input, weights, length, m, b, total, ops, prior);
      b := b + 2;
    }
  }

  /** The accumulation of neuron m (Microblaze/ACC.c:639-685): the full
      blocks in pairs, then the zero-padded partial block; `total_acc`
      ends as the wrapped sum of the answers to all of the neuron's
      operations. */
  method NeuronSum(dev: Device, input: seq<Int8>, weights: seq<Int8>, length: nat, m: nat, ghost ops: seq<Op>)
    returns (total: Int32)
    requires dev.Valid() && dev.Drained()
    requires NeuronInputs(input, weights, length, m) && NeuronOpsAre(ops, input, weights, length, m)
    modifies dev, dev.registers
    ensures dev.Valid() && dev.Drained()
    ensures dev.issued == old(dev.issued) + ops
    ensures total == WrappedSum(Responses(dev.respond, ops))
  {
    ghost var base := |dev.issued|;
    var fullBlocks, remainder := length / 9, length % 9;
    total := FullBlocks(dev, input, weights, length, m, ops);
    if remainder > 0 {
      StartRemainder(dev, input, weights, length, m, ops);
      assert ops[..fullBlocks + 1] == ops[..fullBlocks] + [ops[fullBlocks]];
      AppendAssoc(old(dev.issued), ops[..fullBlocks], [ops[fullBlocks]]);
      var result := dev.ReadResults(1);
      assert dev.issued[base + fullBlocks] == ops[fullBlocks];
      WrappedSumNext(dev.respond, ops, fullBlocks);
      total := AsInt32(total as int + result[0]);
    }
    assert ops[..|ops|] == ops;
  }

  /** The body of the neuron loop for neuron m (Microblaze/ACC.c:638-688):
      the accumulation, the bias, and the requantization. The operations
      started are the neuron's and the value is its activation. */
  method Neuron(dev: Device, input: seq<Int8>, weights: seq<Int8>, biases: seq<Int32>, length: nat,
                zY: int, round: Rescale, m: nat) returns (value: Int8)
    requires dev.Valid() && dev.Drained()
    requires NeuronInputs(input, weights, length, m) && m < |biases|
    modifies dev, dev.registers
    ensures dev.Valid() && dev.Drained()
    ensures dev.issued == old(dev.issued) + NeuronOps(input, weights, length, m)
    ensures value == NeuronValue(dev.respond, input, weights, biases, length, zY, round, m)
  {
    NeuronOpsAt(input, weights, length, m);
    var total := NeuronSum(dev, input, weights, length, m, NeuronOps(input, weights, length, m));
    total := AsInt32(total as int + biases[m]);
    var scaled := round(0, total) + zY;
    if scaled < 0 {
      scaled := 0;
    }
    if scaled > 127 {
      scaled := 127;
    }
    value := scaled;
  }

  /** One pass of the neuron loop (Microblaze/ACC.c:637-689): neuron m
      starts its operations after those of the neurons before it, and its
      activation is stored after theirs; the entries past m are kept. */
  method FcStep(dev: Device, input: seq<Int8>, weights: seq<Int8>, biases: seq<Int32>, length: nat,
                zY: int, round: Rescale, output: array<Int8>, ghost prior: seq<Op>, m: nat)
    requires dev.Valid() && dev.Drained()
    requires length <= |input| && Mul(m + 1, length) <= |weights| && m < |biases| && m < output.Length
    requires dev.issued == prior + FcOps(input, weights, length, m)
    requires output[..m] == FcValues(dev.respond, input, weights, biases, length, zY, round, m)
    modifies dev, dev.registers, output
    ensures dev.Valid() && dev.Drained()
    ensures dev.issued == prior + FcOps(input, weights, length, m + 1)
    ensures output[..m + 1] == FcValues(dev.respond, input, weights, biases, length, zY, round, m + 1)
    ensures forall k | m < k < output.Length :: output[k] == old(output[k])
  {
    var value := Neuron(dev, input, weights, biases, length, zY, round, m);
    AppendAssoc(prior, FcOps(input, weights, length, m), NeuronOps(input, weights, length, m));
    FcValuesNext(dev.respond, input, weights, biases, length, zY, round, m);
    StoredAt(output[..], m, value);
    output[m] := value;
  }

  /** `fc_with_accelerator_parallel` (Microblaze/ACC.c:627-690): the
      operations started are every neuron's in neuron order, and the first
      `numOutputs` entries of `output` are the neurons' activations;
      nothing past them is written. `weights` holds `numOutputs` rows of
      `length` (Mul(numOutputs, length) is numOutputs * length). */
  method FullyConnectedLayer(dev: Device, input: array<Int8>, length: nat, weights: array<Int8>,
                             biases: array<Int32>, zY: int, round: Rescale, numOutputs: nat, output: array<Int8>)
    requires dev.Valid() && dev.Drained()
    requires length <= input.Length && Mul(numOutputs, length) <= weights.Length
    requires numOutputs <= biases.Length && numOutputs <= output.Length
    requires output != input && output != weights
    modifies dev, dev.registers, output
    ensures dev.Valid() && dev.Drained()
    ensures dev.issued == old(dev.issued) + FcOps(input[..], weights[..], length, numOutputs)
    ensures output[..numOutputs] == FcValues(dev.respond, input[..], weights[..], biases[..], length, zY, round, numOutputs)
    ensures output[numOutputs..] == old(output[numOutputs..])
  {
    ghost var prior := dev.issued;
    var image, rows, bs := input[..], weights[..], biases[..];
    for m := 0 to numOutputs
      invariant dev.Valid() && dev.Drained()
      invariant Mul(m, length) <= |rows|
      invariant dev.issued == prior + FcOps(image, rows, length, m)
      invariant output[..m] == FcValues(dev.respond, image, rows, bs, length, zY, round, m)
      invariant forall k | m <= k < output.Length :: output[k] == old(output[k])
    {
      MulMonotone(m + 1, numOutputs, length);
      FcStep(dev, image, rows, bs, length, zY, round, output, prior, m);
    }
    assert output[numOutputs..] == old(output[numOutputs..]);
  }
}
