/**
  The firmware's fragment reassembler, `process_packet` (Microblaze/ACC.c:136-226).

  `Step` is the specification: one received frame takes the transfer state to
  a new transfer state and possibly one acknowledgement. `TransferSession`
  holds the same state the way the firmware does (globals, fixed tables,
  a fixed audio buffer) and its `ProcessPacket` is proved to behave as `Step`.
*/
module Reassembler {
  import opened Bytes
  import opened Wire
  import opened Wrappers

  /** The transfer globals of Microblaze/ACC.c:77-99 as one value. The DRAM
      arena holds exactly the bytes written so far, so `current_offset` is
      `|arena|`. */
  datatype Receiver = Receiver(
    expected: U32,         // expected_fragment_index
    arena: seq<Byte>,      // DRAM_ptr[0 .. current_offset)
    offsets: seq<nat>,     // tensor_offsets
    sizes: seq<U32>,       // tensor_sizes
    tensorCount: nat,      // tensor_count
    audio: seq<Byte>,      // AudioInputBuffer
    audioOffset: nat,      // audio_offset
    audioReady: bool)      // audio_ready

  /** What every reachable state satisfies: table and buffer sizes, the audio
      cursor within the buffer, a full buffer always flagged ready, and every
      recorded tensor offset inside the arena. `tensor_count` is not bounded:
      a first fragment with an id of 18 or more sets it to that id. */
  ghost predicate Consistent(s: Receiver) {
    && |s.offsets| == TotalTensors
    && |s.sizes| == TotalTensors
    && |s.audio| == AudioBufferSize
    && s.audioOffset <= AudioBufferSize
    && (s.audioOffset == AudioBufferSize ==> s.audioReady)
    && forall i | 0 <= i < TotalTensors :: s.offsets[i] <= |s.arena|
  }

  /** The state after reset: all globals zero. */
  function Init(): (s: Receiver)
    ensures Consistent(s) && s.expected == 0 && s.arena == [] && !s.audioReady
  {
    Receiver(0, [], seq(TotalTensors, _ => 0), seq(TotalTensors, _ => 0), 0,
             seq(AudioBufferSize, _ => 0), 0, false)
  }

  /** Frames `process_packet` returns from without acknowledging
      (Microblaze/ACC.c:137-162): too short for the Ethernet header, not
      EtherType 0x88B5, too short for the 16-byte header, or fragment 0 too
      short for the 20-byte header. */
  predicate Dropped(frame: seq<Byte>) {
    || |frame| < EthHeaderSize
    || frame[12] != TransferTypeHi || frame[13] != TransferTypeLo
    || |frame| < EthHeaderSize + HeaderSize
    || (GetU32(frame, 18) == 0 && |frame| < EthHeaderSize + FirstHeaderSize)
  }

  /** The header size of a frame that is not dropped. */
  function HeaderSizeOf(frame: seq<Byte>): (n: nat)
    requires !Dropped(frame)
    ensures n == FirstHeaderSize || n == HeaderSize
    ensures EthHeaderSize + n <= |frame|
  {
    if GetU32(frame, 18) == 0 then FirstHeaderSize else HeaderSize
  }

  /** The payload-length field: at header offset 16 in fragment 0, at 12
      otherwise. */
  function DeclaredLength(frame: seq<Byte>): U32
    requires !Dropped(frame)
  {
    if GetU32(frame, 18) == 0 then GetU32(frame, 30) else GetU32(frame, 26)
  }

  /** The number of payload bytes copied: the declared length clamped to the
      bytes the frame carries after its headers (Microblaze/ACC.c:200-204). */
  function CopyLength(frame: seq<Byte>): (n: nat)
    requires !Dropped(frame)
    ensures EthHeaderSize + HeaderSizeOf(frame) + n <= |frame|
    ensures n <= DeclaredLength(frame)
    ensures n == DeclaredLength(frame) || n == |frame| - EthHeaderSize - HeaderSizeOf(frame)
  {
    var available := |frame| - EthHeaderSize - HeaderSizeOf(frame);
    if DeclaredLength(frame) > available then available else DeclaredLength(frame)
  }

  /** The payload bytes a frame contributes. */
  function Data(frame: seq<Byte>): (d: seq<Byte>)
    requires !Dropped(frame)
    ensures |d| == CopyLength(frame)
  {
    var start := EthHeaderSize + HeaderSizeOf(frame);
    frame[start..start + CopyLength(frame)]
  }

  /** The table slot the first fragment of `tensorId` writes, AS WRITTEN
      (Microblaze/ACC.c:169-174): the test is on the previous `tensor_count`,
      and the slot is the unchecked `tensor_id`. */
  function RecordSlotAsWritten(tensorCount: nat, tensorId: U32): (r: Option<nat>)
    ensures r.Some? ==> r.value == tensorId
  {
    if tensorId == AudioTensorId then None
    else if tensorCount < TotalTensors then Some(tensorId)
    else None
  }

  /** Tensor id 18 arrives while `tensor_count` is 0: the as-written code
      writes `tensor_offsets[18]` and `tensor_sizes[18]`, one past the end of
      both 18-entry tables. */
  lemma RecordSlotOutOfBounds()
    ensures RecordSlotAsWritten(0, 18) == Some(18)
    ensures RecordSlotAsWritten(0, 18).value >= TotalTensors
  {
  }

  /** The slot written with the bound checked on the id itself: always inside
      the tables, and the same slot as the as-written code wherever that one
      stays inside them. */
  function RecordSlot(tensorCount: nat, tensorId: U32): (r: Option<nat>)
    ensures r.Some? ==> r.value < TotalTensors && r.value == tensorId
    ensures r.Some? <==> tensorId < TotalTensors && tensorCount < TotalTensors
    ensures RecordSlotAsWritten(tensorCount, tensorId).Some?
              && RecordSlotAsWritten(tensorCount, tensorId).value < TotalTensors
            ==> r == RecordSlotAsWritten(tensorCount, tensorId)
  {
    if tensorId == AudioTensorId then None
    else if tensorCount < TotalTensors && tensorId < TotalTensors then Some(tensorId)
    else None
  }

  /** Bookkeeping of a first fragment before its bytes are copied
      (Microblaze/ACC.c:169-177): audio restarts at offset 0; while the old
      `tensor_count` is below 18 a model tensor sets `tensor_count` to its
      id and, through `RecordSlot`, records where its bytes begin and its
      declared size; the cursor expects fragment 1. An id of 18 or more still
      becomes `tensor_count`, but the write past the end of the tables is not
      modelled (Findings row 1 of the README). */
  function StartStream(s: Receiver, tensorId: U32, tensorSize: U32): (r: Receiver)
    requires Consistent(s)
    ensures Consistent(r) && r.expected == 1 && r.arena == s.arena
    ensures tensorId == AudioTensorId ==> r == s.(expected := 1, audioOffset := 0)
    ensures tensorId != AudioTensorId && s.tensorCount < TotalTensors && tensorId < TotalTensors ==>
              r == s.(expected := 1, tensorCount := tensorId,
                      offsets := s.offsets[tensorId := |s.arena|],
                      sizes := s.sizes[tensorId := tensorSize])
    ensures tensorId != AudioTensorId && s.tensorCount < TotalTensors && tensorId >= TotalTensors ==>
              r == s.(expected := 1, tensorCount := tensorId)
    ensures tensorId != AudioTensorId && s.tensorCount >= TotalTensors ==> r == s.(expected := 1)
  {
    var s1 :=
      if tensorId == AudioTensorId then s.(audioOffset := 0)
      else if s.tensorCount < TotalTensors then
        var counted := s.(tensorCount := tensorId);
        match RecordSlot(s.tensorCount, tensorId)
        case Some(slot) =>
          counted.(offsets := s.offsets[slot := |s.arena|], sizes := s.sizes[slot := tensorSize])
        case None => counted
      else s;
    s1.(expected := 1)
  }

  /** Copying an accepted fragment's bytes (Microblaze/ACC.c:206-225): a model
      tensor's bytes go to the end of the arena; audio bytes go to the audio
      cursor only if they fit, and the buffer is flagged ready once full. */
  function Append(s: Receiver, tensorId: U32, data: seq<Byte>): (r: Receiver)
    requires Consistent(s)
    ensures Consistent(r) && r.expected == s.expected
    ensures tensorId != AudioTensorId ==> r == s.(arena := s.arena + data)
    ensures tensorId == AudioTensorId && s.audioOffset + |data| <= AudioBufferSize ==>
              && r.arena == s.arena && r.offsets == s.offsets && r.sizes == s.sizes
              && r.audioOffset == s.audioOffset + |data|
              && r.audio[..s.audioOffset] == s.audio[..s.audioOffset]
              && r.audio[s.audioOffset..r.audioOffset] == data
              && r.audio[r.audioOffset..] == s.audio[r.audioOffset..]
              && r.audioReady == (s.audioReady || r.audioOffset == AudioBufferSize)
    ensures tensorId == AudioTensorId && s.audioOffset + |data| > AudioBufferSize ==> r == s
  {
    if tensorId != AudioTensorId then
      s.(arena := s.arena + data)
    else if s.audioOffset + |data| <= AudioBufferSize then
      var o := s.audioOffset;
      var audio := s.audio[..o] + data + s.audio[o + |data|..];
      assert audio[..o] == s.audio[..o];
      assert audio[o..o + |data|] == data;
      assert audio[o + |data|..] == s.audio[o + |data|..];
      s.(audio := audio, audioOffset := o + |data|,
         audioReady := s.audioReady || o + |data| >= AudioBufferSize)
    else
      s
  }

  /** `process_packet`: one received frame (Microblaze/ACC.c:136-226). The
      result's second component is the acknowledgement `send_ack` would
      transmit, if any. */
  function Step(s: Receiver, frame: seq<Byte>): (r: (Receiver, Option<Ack>))
    requires Consistent(s)
    ensures Consistent(r.0)
    // the arena is append-only and a ready audio buffer stays ready
    ensures s.arena <= r.0.arena && (s.audioReady ==> r.0.audioReady)
    // malformed frames: no acknowledgement and no state change
    ensures r.1.None? <==> Dropped(frame)
    ensures r.1.None? ==> r.0 == s
    // every acknowledgement names the frame's tensor
    ensures r.1.Some? ==> r.1.value.tensorId == GetU32(frame, 14)
    // fragment 0 is always acknowledged and restarts the cursor at 1
    ensures !Dropped(frame) && GetU32(frame, 18) == 0 ==>
              r.1.value == Ack(GetU32(frame, 14), 0, 1) && r.0.expected == 1
    // a later fragment out of order: NACK carrying the expected index, nothing changes
    ensures !Dropped(frame) && GetU32(frame, 18) != 0 && GetU32(frame, 18) != s.expected ==>
              r.1.value == Ack(GetU32(frame, 14), s.expected, 0) && r.0 == s
    // a later fragment in order: ACK and the cursor moves past it (u32 arithmetic)
    ensures !Dropped(frame) && GetU32(frame, 18) != 0 && GetU32(frame, 18) == s.expected ==>
              r.1.value == Ack(GetU32(frame, 14), s.expected, 1)
              && r.0.expected == (s.expected + 1) % 0x1_0000_0000
    // an accepted model-tensor fragment appends exactly its clamped payload
    ensures r.1.Some? && r.1.value.status == 1 && GetU32(frame, 14) != AudioTensorId ==>
              r.0.arena == s.arena + Data(frame)
    // bytes only ever land in the arena for model tensors
    ensures Dropped(frame) || GetU32(frame, 14) == AudioTensorId ==> r.0.arena == s.arena
  {
    if Dropped(frame) then (s, None)
    else
      var tensorId := GetU32(frame, 14);
      var index := GetU32(frame, 18);
      if index == 0 then
        var started := StartStream(s, tensorId, GetU32(frame, 26));
        (Append(started, tensorId, Data(frame)), Some(Ack(tensorId, 0, 1)))
      else if index != s.expected then
        (s, Some(Ack(tensorId, s.expected, 0)))
      else
        var advanced := s.(expected := ToU32(index as int + 1));
        (Append(advanced, tensorId, Data(frame)), Some(Ack(tensorId, index, 1)))
  }

  /** The first fragment of a model tensor: the payload is appended, the
      cursor expects fragment 1, and while the old `tensor_count` is below 18
      `tensor_count` takes the id and, for an id below 18, the tensor's table
      entries record where its bytes begin and its declared size. Nothing
      else changes. */
  lemma FirstModelFragment(s: Receiver, frame: seq<Byte>)
    requires Consistent(s) && !Dropped(frame)
    requires GetU32(frame, 18) == 0 && GetU32(frame, 14) != AudioTensorId
    ensures var id := GetU32(frame, 14);
      Step(s, frame).1 == Some(Ack(id, 0, 1))
    ensures var id, r := GetU32(frame, 14), Step(s, frame).0;
      s.tensorCount < TotalTensors && id < TotalTensors ==>
        r == s.(expected := 1, arena := s.arena + Data(frame), tensorCount := id,
                offsets := s.offsets[id := |s.arena|], sizes := s.sizes[id := GetU32(frame, 26)])
    ensures var id, r := GetU32(frame, 14), Step(s, frame).0;
      s.tensorCount < TotalTensors && id >= TotalTensors ==>
        r == s.(expected := 1, arena := s.arena + Data(frame), tensorCount := id)
    ensures var r := Step(s, frame).0;
      s.tensorCount >= TotalTensors ==> r == s.(expected := 1, arena := s.arena + Data(frame))
  {
  }

  /** A later fragment of a model tensor, in order: the cursor moves past it,
      its payload is appended, and nothing else changes. */
  lemma NextModelFragment(s: Receiver, frame: seq<Byte>)
    requires Consistent(s) && !Dropped(frame)
    requires GetU32(frame, 18) != 0 && GetU32(frame, 18) == s.expected
    requires GetU32(frame, 14) != AudioTensorId
    ensures Step(s, frame)
            == (s.(expected := (s.expected + 1) % 0x1_0000_0000, arena := s.arena + Data(frame)),
                Some(Ack(GetU32(frame, 14), s.expected, 1)))
  {
  }

  /** A later fragment of the audio input, in order, that fits: the cursor
      moves past it, its payload is written at the audio cursor, the audio
      cursor moves past it, and the buffer is flagged ready when it is full. */
  lemma NextAudioFragment(s: Receiver, frame: seq<Byte>)
    requires Consistent(s) && !Dropped(frame)
    requires GetU32(frame, 18) != 0 && GetU32(frame, 18) == s.expected
    requires GetU32(frame, 14) == AudioTensorId
    requires s.audioOffset + CopyLength(frame) <= AudioBufferSize
    ensures var o, o' := s.audioOffset, s.audioOffset + CopyLength(frame);
      Step(s, frame)
      == (s.(expected := (s.expected + 1) % 0x1_0000_0000, audio := s.audio[..o] + Data(frame) + s.audio[o'..],
             audioOffset := o', audioReady := s.audioReady || o' == AudioBufferSize),
          Some(Ack(AudioTensorId, s.expected, 1)))
  {
  }

  /** An accepted audio fragment that fits goes to the audio cursor and
      advances it by its length; one that does not fit changes nothing; the
      buffer becomes ready exactly when the cursor reaches its capacity.
      (Microblaze/ACC.c:211-224.) */
  lemma AudioFragment(s: Receiver, frame: seq<Byte>)
    requires Consistent(s) && !Dropped(frame) && GetU32(frame, 14) == AudioTensorId
    requires GetU32(frame, 18) == 0 || GetU32(frame, 18) == s.expected
    ensures var base := if GetU32(frame, 18) == 0 then 0 else s.audioOffset;
      var r := Step(s, frame).0;
      && (base + CopyLength(frame) <= AudioBufferSize ==>
            && r.audioOffset == base + CopyLength(frame)
            && r.audio[base..r.audioOffset] == Data(frame)
            && r.audio[..base] == s.audio[..base]
            && r.audio[r.audioOffset..] == s.audio[r.audioOffset..]
            && r.audioReady == (s.audioReady || r.audioOffset == AudioBufferSize))
      && (base + CopyLength(frame) > AudioBufferSize ==>
            r.audioOffset == base && r.audio == s.audio && r.audioReady == s.audioReady)
  {
  }

  /** The firmware's globals, held as the firmware holds them: scalar
      globals as fields, the two tensor tables and the audio buffer as fixed
      arrays, and the DRAM arena as the bytes written so far. */
  class TransferSession {
    var expectedFragmentIndex: U32
    var dram: seq<Byte>
    var currentOffset: nat
    const tensorOffsets: array<nat>
    const tensorSizes: array<U32>
    var tensorCount: nat
    const audioInputBuffer: array<Byte>
    var audioOffset: nat
    var audioReady: bool

    ghost predicate Valid()
      reads this, tensorOffsets, tensorSizes, audioInputBuffer
    {
      && tensorOffsets.Length == TotalTensors
      && tensorSizes.Length == TotalTensors
      && audioInputBuffer.Length == AudioBufferSize
      && currentOffset == |dram|
      && Consistent(Model())
    }

    /** The state as a `Receiver` value. */
    ghost function Model(): Receiver
      reads this, tensorOffsets, tensorSizes, audioInputBuffer
    {
      Receiver(expectedFragmentIndex, dram, tensorOffsets[..], tensorSizes[..], tensorCount,
               audioInputBuffer[..], audioOffset, audioReady)
    }

    constructor ()
      ensures Valid() && Model() == Init()
      ensures fresh(tensorOffsets) && fresh(tensorSizes) && fresh(audioInputBuffer)
    {
      expectedFragmentIndex := 0;
      dram := [];
      currentOffset := 0;
      tensorOffsets := new nat[TotalTensors](_ => 0);
      tensorSizes := new U32[TotalTensors](_ => 0);
      tensorCount := 0;
      audioInputBuffer := new Byte[AudioBufferSize](_ => 0);
      audioOffset := 0;
      audioReady := false;
      new;
      assert tensorOffsets[..] == Init().offsets;
      assert tensorSizes[..] == Init().sizes;
      assert audioInputBuffer[..] == Init().audio;
    }

    /** The copy of `process_packet`'s data into DRAM or the audio buffer. */
    method CopyPayload(tensorId: U32, data: seq<Byte>)
      requires Valid()
      modifies this`dram, this`currentOffset, this`audioOffset, this`audioReady, audioInputBuffer
      ensures Valid()
      ensures Model() == Append(old(Model()), tensorId, data)
    {
      if tensorId != AudioTensorId {
        dram := dram + data;
        currentOffset := currentOffset + |data|;
      } else if audioOffset + |data| <= AudioBufferSize {
        var o := audioOffset;
        forall i | 0 <= i < |data| {
          audioInputBuffer[o + i] := data[i];
        }
        audioOffset := audioOffset + |data|;
        if audioOffset >= AudioBufferSize {
          audioReady := true;
        }
        ghost var was := old(Model());
        assert audioInputBuffer[..] == was.audio[..o] + data + was.audio[o + |data|..];
      }
    }

    /** `process_packet(packet, length)` with `packet[..length]` as `frame`:
        updates the globals and returns the acknowledgement it sends. The
        table write is guarded by the id as well as by `tensor_count`, the
        correction of Findings row 1 of the README: an id of 18 or more sets
        `tensor_count` and writes no table entry. */
    method ProcessPacket(frame: seq<Byte>) returns (ack: Option<Ack>)
      requires Valid()
      modifies this, tensorOffsets, tensorSizes, audioInputBuffer
      ensures Valid()
      ensures (Model(), ack) == Step(old(Model()), frame)
    {
      if |frame| < EthHeaderSize { return None; }
      if frame[12] != TransferTypeHi || frame[13] != TransferTypeLo { return None; }
      if |frame| < EthHeaderSize + HeaderSize { return None; }

      var tensorId := GetU32(frame, 14);
      var fragmentIndex := GetU32(frame, 18);
      var headerSize: nat;
      var declared: U32;

      if fragmentIndex == 0 {
        if |frame| < EthHeaderSize + FirstHeaderSize { return None; }
        var tensorSize := GetU32(frame, 26);
        declared := GetU32(frame, 30);
        headerSize := FirstHeaderSize;
        if tensorId == AudioTensorId {
          audioOffset := 0;
        } else if tensorCount < TotalTensors {
          tensorCount := tensorId;
          if tensorCount < TotalTensors {
            tensorOffsets[tensorCount] := currentOffset;
            tensorSizes[tensorCount] := tensorSize;
          }
        }
        expectedFragmentIndex := 1;
        ack := Some(Ack(tensorId, 0, 1));
        assert Model() == StartStream(old(Model()), tensorId, tensorSize);
      } else {
        declared := GetU32(frame, 26);
        headerSize := HeaderSize;
        if fragmentIndex != expectedFragmentIndex {
          return Some(Ack(tensorId, expectedFragmentIndex, 0));
        }
        ack := Some(Ack(tensorId, fragmentIndex, 1));
        expectedFragmentIndex := ToU32(fragmentIndex as int + 1);
      }

      var length := declared;
      if length > |frame| - EthHeaderSize - headerSize {
        length := |frame| - EthHeaderSize - headerSize;
      }
      var start := EthHeaderSize + headerSize;
      assert frame[start..start + length] == Data(frame);
      CopyPayload(tensorId, frame[start..start + length]);
    }
  }
}
