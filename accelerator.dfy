/**
  The firmware's driver for the 3x3 multiply-accumulate accelerator
  (Microblaze/ACC.c:369-443): `accel_conv3x3_buffer` packs one operation
  into one of the accelerator's two register slots, and
  `read_accelerator_results` drains result words, in order, from the
  accelerator's output region through the global `acc_output_offset`.

  The accelerator itself is an oracle: an operation it starts is logged in
  `issued`, and the word it leaves for the k-th logged operation is
  `respond(issued[k])`.
*/
module Accelerator {
  import opened Bytes

  /** One operation as the accelerator decodes it from a slot's registers:
      the slot, the nine input bytes, the nine filter bytes and the
      processing-element selection mask. */
  datatype Op = Op(slot: nat, input: seq<Byte>, filter: seq<Byte>, peMask: Byte)

  /** Registers per slot: three filter words, then three input words. */
  const SlotWords: nat := 6

  /** Bit 24 of the control word starts the operation. */
  const EnableBit: nat := 0x100_0000

  /** `(unsigned char)` applied to each of nine signed bytes. */
  function Unsigned(xs: seq<Int8>): (bs: seq<Byte>)
    ensures |bs| == |xs|
    ensures forall i {:trigger bs[i]} | 0 <= i < |xs| :: bs[i] == ToByte(xs[i])
  {
    seq(|xs|, i requires 0 <= i < |xs| => ToByte(xs[i]))
  }

  /** The slot `buffer_set` selects: 0 for 0, 1 for anything else. */
  function SlotOf(bufferSet: nat): (slot: nat)
    ensures slot < 2 && (slot == 0 <==> bufferSet == 0)
  {
    if bufferSet == 0 then 0 else 1
  }

  /** The six register words `accel_conv3x3_buffer` writes into a slot
      (Microblaze/ACC.c:395-430): filter bytes 0..7 as two little-endian
      words, filter byte 8 alone, input bytes 0..7 as two little-endian
      words, and the control word `in[8] | pe_mask << 16 | 1 << 24`. */
  function PackOp(input: seq<Int8>, filter: seq<Int8>, peMask: Byte): (ws: seq<U32>)
    requires |input| == 9 && |filter| == 9
    ensures |ws| == SlotWords
  {
    var i, f := Unsigned(input), Unsigned(filter);
    [GetU32(f, 0), GetU32(f, 4), f[8], GetU32(i, 0), GetU32(i, 4), i[8] + peMask * 0x1_0000 + EnableBit]
  }

  /** How the accelerator reads a slot's six words back: bytes 0..7 of each
      operand from two words, byte 8 from the low byte of the third, the mask
      from bits 16..23 of the control word. */
  function UnpackOp(slot: nat, ws: seq<U32>): Op
    requires |ws| == SlotWords
  {
    Op(slot, PutU32(ws[3]) + PutU32(ws[4]) + [ws[5] % 0x100],
       PutU32(ws[0]) + PutU32(ws[1]) + [ws[2] % 0x100],
       (ws[5] / 0x1_0000) % 0x100)
  }

  /** The packed words carry the operation exactly: the accelerator decodes
      the bytes and the mask the driver was given, the filter's third word
      has its upper 24 bits clear, and the control word has its enable bit
      set. */
  lemma UnpackPack(slot: nat, input: seq<Int8>, filter: seq<Int8>, peMask: Byte)
    requires |input| == 9 && |filter| == 9
    ensures UnpackOp(slot, PackOp(input, filter, peMask)) == Op(slot, Unsigned(input), Unsigned(filter), peMask)
    ensures var ws := PackOp(input, filter, peMask);
      && ws[2] < 0x100
      && (ws[5] / EnableBit) % 2 == 1
  {
    var i, f := Unsigned(input), Unsigned(filter);
    var ws := PackOp(input, filter, peMask);
    ControlWord(i[8], peMask);
    assert ws[5] % 0x100 == i[8];
    WordsBytes(i);
    WordsBytes(f);
  }

  /** Nine bytes split into two little-endian words and a last byte come
      back whole. */
  lemma WordsBytes(b: seq<Byte>)
    requires |b| == 9
    ensures PutU32(GetU32(b, 0)) + PutU32(GetU32(b, 4)) + [b[8] % 0x100] == b
  {
    PutGetU32(b, 0);
    PutGetU32(b, 4);
    assert b == b[0..4] + b[4..8] + [b[8]];
  }

  /** The fields of a control word: the ninth input byte in bits 0..7, the
      mask in bits 16..23, the enable bit 24 set. */
  lemma ControlWord(last: Byte, peMask: Byte)
    ensures var w := last + peMask * 0x1_0000 + EnableBit;
      && w % 0x100 == last
      && (w / 0x1_0000) % 0x100 == peMask
      && (w / EnableBit) % 2 == 1
  {
    var w := last + peMask * 0x1_0000 + EnableBit;
    assert w == last + 0x1_0000 * (peMask + 0x100);
    assert w / 0x1_0000 == peMask + 0x100;
    assert w / EnableBit == 1;
  }

  /** The accelerator and its driver state. */
  class Device {
    /** The twelve registers from ACC_BASE_ADDR: slot 0's filter words and
        input words, then slot 1's. */
    const registers: array<U32>
    /** The operations the accelerator has started since its output region
        was last rewound, in order. */
    var issued: seq<Op>
    /** `acc_output_offset`: bytes of the output region already read. */
    var outputOffset: nat
    /** The word the accelerator writes for an operation. */
    const respond: Op -> U32

    ghost predicate Valid()
      reads this
    {
      && registers.Length == 2 * SlotWords
      && outputOffset % 4 == 0
      && outputOffset / 4 <= |issued|
    }

    /** Every started operation has been read back. */
    ghost predicate Drained()
      reads this
    {
      outputOffset == 4 * |issued|
    }

    constructor (respond: Op -> U32)
      ensures Valid() && Drained() && issued == [] && this.respond == respond
      ensures fresh(registers)
    {
      registers := new U32[2 * SlotWords](_ => 0);
      issued := [];
      outputOffset := 0;
      this.respond := respond;
    }

    /** `accel_conv3x3_buffer(in_patch, filter, buffer_set, pe_mask)`
        (Microblaze/ACC.c:369-431): the slot's six registers take the packed
        words, the other slot's keep theirs, and the write of the control
        word starts the operation the accelerator decodes from them. */
    method Dispatch(input: seq<Int8>, filter: seq<Int8>, bufferSet: nat, peMask: Byte)
      requires Valid() && |input| == 9 && |filter| == 9
      modifies this, registers
      ensures Valid() && outputOffset == old(outputOffset)
      ensures issued == old(issued) + [Op(SlotOf(bufferSet), Unsigned(input), Unsigned(filter), peMask)]
      ensures var base := SlotWords * SlotOf(bufferSet);
        && registers[base..base + SlotWords] == PackOp(input, filter, peMask)
        && forall k | 0 <= k < registers.Length && !(base <= k < base + SlotWords) ::
             registers[k] == old(registers[k])
    {
      var slot := SlotOf(bufferSet);
      var base := SlotWords * slot;
      var ws := PackOp(input, filter, peMask);
      registers[base] := ws[0];
      registers[base + 1] := ws[1];
      registers[base + 2] := ws[2];
      registers[base + 3] := ws[3];
      registers[base + 4] := ws[4];
      registers[base + 5] := ws[5];
      assert registers[base..base + SlotWords] == ws;
      issued := issued + [UnpackOp(slot, registers[base..base + SlotWords])];
      UnpackPack(slot, input, filter, peMask);
    }

    /** `read_accelerator_results(results, num_ops)`
        (Microblaze/ACC.c:437-443): the next `numOps` result words in the
        order their operations started, with `acc_output_offset` moved past
        them. The accelerator must already have started the operations
        whose results are read. */
    method ReadResults(numOps: nat) returns (results: seq<U32>)
      requires Valid() && outputOffset / 4 + numOps <= |issued|
      modifies this
      ensures Valid() && issued == old(issued)
      ensures outputOffset == old(outputOffset) + 4 * numOps
      ensures results == Answers(issued, respond, old(outputOffset) / 4, numOps)
    {
      results := [];
      var i := 0;
      while i < numOps
        invariant i <= numOps && Valid() && issued == old(issued)
        invariant outputOffset == old(outputOffset) + 4 * i
        invariant results == Answers(issued, respond, old(outputOffset) / 4, i)
      {
        results := results + [respond(issued[outputOffset / 4])];
        outputOffset := outputOffset + 4;
        i := i + 1;
      }
    }

    /** `acc_output_offset = 0` (Microblaze/ACC.c:460): reading starts over
        at the beginning of the output region, where the accelerator writes
        the result of the next operation it starts. */
    method Rewind()
      requires Valid()
      modifies this
      ensures Valid()
      ensures outputOffset == 0 && issued == [] && Drained()
    {
      outputOffset := 0;
      issued := [];
    }
  }

  /** The `n` result words from the `from`-th on: the answers to the
      operations in the order they were started. */
  function Answers(issued: seq<Op>, respond: Op -> U32, from: nat, n: nat): (rs: seq<U32>)
    requires from + n <= |issued|
    ensures |rs| == n
    ensures forall i | 0 <= i < n :: rs[i] == respond(issued[from + i])
  {
    if n == 0 then [] else Answers(issued, respond, from, n - 1) + [respond(issued[from + n - 1])]
  }

  /** Reading results in two calls gets the same words, in the same order,
      as reading them in one. */
  lemma AnswersSplit(issued: seq<Op>, respond: Op -> U32, from: nat, n: nat, m: nat)
    requires from + n + m <= |issued|
    ensures Answers(issued, respond, from, n + m)
            == Answers(issued, respond, from, n) + Answers(issued, respond, from + n, m)
  {
  }

  /** Results read from operations started after the reading position
      depend only on those operations: operations started later do not
      change them. */
  lemma AnswersPrefix(issued: seq<Op>, more: seq<Op>, respond: Op -> U32, from: nat, n: nat)
    requires from + n <= |issued|
    ensures Answers(issued + more, respond, from, n) == Answers(issued, respond, from, n)
  {
  }
}
