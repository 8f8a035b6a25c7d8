/**
  The two ends of the link together: what the firmware's reassembler
  (`process_packet`, Microblaze/ACC.c:136-226) makes of the frames the PC's
  sender (`send_tensor_fragments`, PC_code/Input_weight.py:119-176) puts on
  the wire, and what the sender concludes from the acknowledgements the
  firmware answers with.
*/
module Transfer {
  import opened Bytes
  import opened Wire
  import opened Wrappers
  import opened Reassembler
  import opened Sender
  import opened TensorCodec

  /** Every fragment frame the sender builds passes the firmware's checks,
      its header fields read back as the sender packed them, and the bytes
      the firmware copies out of it are exactly the fragment's slice. */
  lemma FragmentFields(tensorId: U32, payload: seq<Byte>, k: nat)
    requires |payload| < 0x1_0000_0000 && k < TotalFragments(|payload|)
    ensures var f := FragmentFrame(tensorId, payload, k);
      && !Dropped(f)
      && GetU32(f, 14) == tensorId && GetU32(f, 18) == k
      && GetU32(f, 22) == TotalFragments(|payload|)
      && (k == 0 ==> GetU32(f, 26) == |payload|)
      && Data(f) == FragmentData(payload, k)
  {
    TotalFragmentsFits(|payload|);
    var total := TotalFragments(|payload|);
    var data := FragmentData(payload, k);
    var f := FragmentFrame(tensorId, payload, k);
    if k == 0 {
      FirstHeaderFields(tensorId, total, |payload|, |data|, data);
      assert f[EthHeaderSize + FirstHeaderSize..] == data;
    } else {
      NextHeaderFields(tensorId, k, total, |data|, data);
      assert f[EthHeaderSize + HeaderSize..] == data;
    }
  }

  /** `states` and `acks` are what the firmware goes through while it
      receives `frames` in order: it starts in `states[0]`, and frame `i`
      takes it from `states[i]` to `states[i + 1]` and is answered with
      `acks[i]` (`None` where `process_packet` returns silently). */
  ghost predicate Trace(frames: seq<seq<Byte>>, states: seq<Receiver>, acks: seq<Option<Ack>>) {
    && |states| == |frames| + 1 && |acks| == |frames|
    && (forall i | 0 <= i < |states| :: Consistent(states[i]))
    && forall i {:trigger Step(states[i], frames[i])} | 0 <= i < |frames| ::
         Step(states[i], frames[i]) == (states[i + 1], acks[i])
  }

  /** Fragments 0 .. n-1 of a tensor, in order: what the sender puts on a
      link that loses nothing. */
  function InOrder(tensorId: U32, payload: seq<Byte>, n: nat): (fs: seq<seq<Byte>>)
    requires |payload| < 0x1_0000_0000 && n <= TotalFragments(|payload|)
    ensures |fs| == n
  {
    if n == 0 then [] else InOrder(tensorId, payload, n - 1) + [FragmentFrame(tensorId, payload, n - 1)]
  }

  lemma {:induction false} InOrderIndex(tensorId: U32, payload: seq<Byte>, n: nat, k: nat)
    requires |payload| < 0x1_0000_0000 && k < n <= TotalFragments(|payload|)
    ensures InOrder(tensorId, payload, n)[k] == FragmentFrame(tensorId, payload, k)
  {
    if k < n - 1 {
      InOrderIndex(tensorId, payload, n - 1, k);
    }
  }

  /** `f`, as the firmware reads it, carries fragment `k` of `payload` for
      tensor `tensorId`. */
  predicate Carries(f: seq<Byte>, tensorId: U32, payload: seq<Byte>, k: nat)
    requires |payload| < 0x1_0000_0000 && k < TotalFragments(|payload|)
  {
    && !Dropped(f)
    && GetU32(f, 14) == tensorId && GetU32(f, 18) == k
    && (k == 0 ==> GetU32(f, 26) == |payload|)
    && Data(f) == FragmentData(payload, k)
  }

  /** `fs` carries every fragment of `payload`, in order. */
  predicate CarriesAll(fs: seq<seq<Byte>>, tensorId: U32, payload: seq<Byte>) {
    && |payload| < 0x1_0000_0000
    && |fs| == TotalFragments(|payload|)
    && forall k {:trigger Carries(fs[k], tensorId, payload, k)} | 0 <= k < |fs| ::
         Carries(fs[k], tensorId, payload, k)
  }

  /** The sender's fragment frames, in order, carry the whole payload. */
  lemma InOrderCarries(tensorId: U32, payload: seq<Byte>)
    requires |payload| < 0x1_0000_0000
    ensures CarriesAll(InOrder(tensorId, payload, TotalFragments(|payload|)), tensorId, payload)
  {
    var total := TotalFragments(|payload|);
    forall k | 0 <= k < total
      ensures Carries(InOrder(tensorId, payload, total)[k], tensorId, payload, k)
    {
      InOrderIndex(tensorId, payload, total, k);
      FragmentFields(tensorId, payload, k);
    }
  }

  /** The state after the first `n` fragments of a model tensor: the first
      fragment's bookkeeping, the cursor at `n` and the fragments' bytes
      appended. */
  function Loading(s: Receiver, tensorId: U32, payload: seq<Byte>, n: nat): Receiver
    requires Consistent(s) && tensorId != AudioTensorId
    requires |payload| < 0x1_0000_0000 && 0 < n <= TotalFragments(|payload|)
  {
    TotalFragmentsFits(|payload|);
    var recorded :=
      if s.tensorCount >= TotalTensors then s
      else if tensorId < TotalTensors then
        s.(tensorCount := tensorId, offsets := s.offsets[tensorId := |s.arena|],
           sizes := s.sizes[tensorId := |payload|])
      else s.(tensorCount := tensorId);
    recorded.(expected := n, arena := s.arena + Assembled(payload, n))
  }

  /** The first fragment of a model tensor starts its stream. */
  lemma LoadFirst(s: Receiver, tensorId: U32, payload: seq<Byte>, f: seq<Byte>)
    requires Consistent(s) && tensorId != AudioTensorId && |payload| < 0x1_0000_0000
    requires Carries(f, tensorId, payload, 0)
    ensures Step(s, f) == (Loading(s, tensorId, payload, 1), Some(Ack(tensorId, 0, 1)))
  {
    FirstModelFragment(s, f);
    assert Assembled(payload, 1) == FragmentData(payload, 0);
  }

  /** Fragment `n` arrives in order: it is acknowledged and appended. */
  lemma LoadNext(s: Receiver, tensorId: U32, payload: seq<Byte>, n: nat, f: seq<Byte>)
    requires Consistent(s) && tensorId != AudioTensorId && |payload| < 0x1_0000_0000
    requires 0 < n < TotalFragments(|payload|)
    requires Consistent(Loading(s, tensorId, payload, n))
    requires Carries(f, tensorId, payload, n)
    ensures Step(Loading(s, tensorId, payload, n), f)
            == (Loading(s, tensorId, payload, n + 1), Some(Ack(tensorId, n, 1)))
  {
    LoadingCursor(s, tensorId, payload, n);
    StepLoading(Loading(s, tensorId, payload, n), tensorId, payload, n, f);
    LoadingNext(s, tensorId, payload, n);
  }

  /** Fragment `n` of a model tensor, arriving while the cursor expects it,
      moves the cursor on and appends its slice. */
  lemma StepLoading(before: Receiver, tensorId: U32, payload: seq<Byte>, n: nat, f: seq<Byte>)
    requires Consistent(before) && before.expected == n
    requires tensorId != AudioTensorId && |payload| < 0x1_0000_0000
    requires 0 < n < TotalFragments(|payload|)
    requires Carries(f, tensorId, payload, n)
    ensures Step(before, f)
            == (before.(expected := n + 1, arena := before.arena + FragmentData(payload, n)),
                Some(Ack(tensorId, n, 1)))
  {
    TotalFragmentsFits(|payload|);
    assert (n + 1) % 0x1_0000_0000 == n + 1;
    NextModelFragment(before, f);
  }

  /** After `n` fragments the cursor expects fragment `n`. */
  lemma LoadingCursor(s: Receiver, tensorId: U32, payload: seq<Byte>, n: nat)
    requires Consistent(s) && tensorId != AudioTensorId
    requires |payload| < 0x1_0000_0000 && 0 < n <= TotalFragments(|payload|)
    ensures Loading(s, tensorId, payload, n).expected == n
  {
  }

  /** The state after fragment `n` is the state before it with the cursor
      moved on and the fragment's bytes appended. */
  lemma LoadingNext(s: Receiver, tensorId: U32, payload: seq<Byte>, n: nat)
    requires Consistent(s) && tensorId != AudioTensorId && |payload| < 0x1_0000_0000
    requires 0 < n < TotalFragments(|payload|)
    ensures var before := Loading(s, tensorId, payload, n);
      Loading(s, tensorId, payload, n + 1)
      == before.(expected := n + 1, arena := before.arena + FragmentData(payload, n))
  {
    assert s.arena + Assembled(payload, n + 1) == (s.arena + Assembled(payload, n)) + FragmentData(payload, n);
  }

  /** After the first `n` fragments of a model tensor, in order, the state
      is `Loading` and every fragment was acknowledged with its own index. */
  lemma {:induction false} LoadPrefix(tensorId: U32, payload: seq<Byte>, fs: seq<seq<Byte>>,
                                      states: seq<Receiver>, acks: seq<Option<Ack>>, n: nat)
    requires tensorId != AudioTensorId && CarriesAll(fs, tensorId, payload) && Trace(fs, states, acks)
    requires 0 < n <= |fs|
    ensures states[n] == Loading(states[0], tensorId, payload, n)
    ensures forall k | 0 <= k < n :: acks[k] == Some(Ack(tensorId, k, 1))
  {
    if n == 1 {
      TraceFirst(tensorId, payload, fs, states, acks);
    } else {
      LoadPrefix(tensorId, payload, fs, states, acks, n - 1);
      TraceNext(tensorId, payload, fs, states, acks, n - 1);
    }
  }

  /** The first frame of a trace that carries a model tensor starts the
      tensor and is acknowledged as fragment 0. */
  lemma TraceFirst(tensorId: U32, payload: seq<Byte>, fs: seq<seq<Byte>>,
                   states: seq<Receiver>, acks: seq<Option<Ack>>)
    requires tensorId != AudioTensorId && CarriesAll(fs, tensorId, payload) && Trace(fs, states, acks)
    requires 0 < |fs|
    ensures states[1] == Loading(states[0], tensorId, payload, 1)
    ensures acks[0] == Some(Ack(tensorId, 0, 1))
  {
    assert Carries(fs[0], tensorId, payload, 0);
    LoadFirst(states[0], tensorId, payload, fs[0]);
  }

  /** Frame n of a trace that carries a model tensor, arriving after the
      first n fragments, appends fragment n and is acknowledged with its
      own index. */
  lemma TraceNext(tensorId: U32, payload: seq<Byte>, fs: seq<seq<Byte>>,
                  states: seq<Receiver>, acks: seq<Option<Ack>>, n: nat)
    requires tensorId != AudioTensorId && CarriesAll(fs, tensorId, payload) && Trace(fs, states, acks)
    requires 0 < n < |fs| && states[n] == Loading(states[0], tensorId, payload, n)
    ensures states[n + 1] == Loading(states[0], tensorId, payload, n + 1)
    ensures acks[n] == Some(Ack(tensorId, n, 1))
  {
    assert Carries(fs[n], tensorId, payload, n);
    LoadNext(states[0], tensorId, payload, n, fs[n]);
  }

  /** A model tensor whose fragments all arrive, in order: the firmware ends
      with exactly the payload appended to DRAM, the cursor at the fragment
      count, and one positive acknowledgement per fragment, in order. While
      the old `tensor_count` is below 18 it takes the id, and an id below 18
      gets table entries pointing at the payload with its size; otherwise
      the tables are untouched. */
  lemma ModelTensorArrives(tensorId: U32, payload: seq<Byte>, fs: seq<seq<Byte>>,
                           states: seq<Receiver>, acks: seq<Option<Ack>>)
    requires tensorId != AudioTensorId && CarriesAll(fs, tensorId, payload) && Trace(fs, states, acks)
    ensures var s := states[0];
      s.tensorCount < TotalTensors && tensorId < TotalTensors ==>
        states[|fs|] == s.(expected := |fs|, arena := s.arena + payload, tensorCount := tensorId,
                           offsets := s.offsets[tensorId := |s.arena|], sizes := s.sizes[tensorId := |payload|])
    ensures var s := states[0];
      s.tensorCount < TotalTensors && tensorId >= TotalTensors ==>
        states[|fs|] == s.(expected := |fs|, arena := s.arena + payload, tensorCount := tensorId)
    ensures var s := states[0];
      s.tensorCount >= TotalTensors ==> states[|fs|] == s.(expected := |fs|, arena := s.arena + payload)
    ensures forall k | 0 <= k < |fs| :: acks[k] == Some(Ack(tensorId, k, 1))
  {
    LoadPrefix(tensorId, payload, fs, states, acks, |fs|);
    FragmentsCoverPayload(payload);
  }

  /** The state after the first `n` fragments of the audio input (tensor
      99): the fragments' bytes are at the front of the audio buffer, the
      audio cursor is just past them, the rest of the buffer is as it was,
      and the buffer is flagged ready once it is full. */
  function AudioLoading(s: Receiver, payload: seq<Byte>, n: nat): Receiver
    requires Consistent(s) && |payload| <= AudioBufferSize
    requires 0 < n <= TotalFragments(|payload|)
  {
    FragmentBounds(|payload|, n - 1);
    var e := FragmentEnd(|payload|, n - 1);
    s.(expected := n, audio := payload[..e] + s.audio[e..], audioOffset := e,
       audioReady := s.audioReady || e == AudioBufferSize)
  }

  /** The first audio fragment rewinds the audio cursor and writes its bytes
      at the front of the buffer. */
  lemma AudioFirst(s: Receiver, payload: seq<Byte>, f: seq<Byte>)
    requires Consistent(s) && |payload| <= AudioBufferSize
    requires Carries(f, AudioTensorId, payload, 0)
    ensures Step(s, f) == (AudioLoading(s, payload, 1), Some(Ack(AudioTensorId, 0, 1)))
  {
    FragmentBounds(|payload|, 0);
    var e := FragmentEnd(|payload|, 0);
    var r := Step(s, f).0;
    assert r.audio == payload[..e] + s.audio[e..] by {
      AudioFragment(s, f);
      assert r.audio[..e] == payload[..e];
    }
  }

  /** An audio fragment in order whose bytes `p[e..e']` follow those of
      `p[..e]` already written over `rest`: it is acknowledged and the longer
      slice `p[..e']` is then written over `rest`. */
  lemma AudioNext(before: Receiver, f: seq<Byte>, p: seq<Byte>, rest: seq<Byte>, e: nat, e': nat)
    requires Consistent(before) && !Dropped(f) && GetU32(f, 14) == AudioTensorId
    requires 0 < GetU32(f, 18) == before.expected < 0xFFFF_FFFF
    requires e <= e' <= |p| && e' <= AudioBufferSize == |rest|
    requires before.audio == p[..e] + rest[e..] && before.audioOffset == e && Data(f) == p[e..e']
    ensures Step(before, f)
            == (before.(expected := before.expected + 1, audio := p[..e'] + rest[e'..], audioOffset := e',
                        audioReady := before.audioReady || e' == AudioBufferSize),
                Some(Ack(AudioTensorId, before.expected, 1)))
  {
    NextAudioFragment(before, f);
    SpliceNext(p, rest, e, e');
  }

  /** Writing the next slice of `p` just past the slice already written over
      `rest` leaves the longer slice written over `rest`. */
  lemma SpliceNext(p: seq<Byte>, rest: seq<Byte>, e: nat, e': nat)
    requires e <= e' <= |p| && e' <= |rest|
    ensures var a := p[..e] + rest[e..];
      a[..e] + p[e..e'] + a[e'..] == p[..e'] + rest[e'..]
  {
    var a := p[..e] + rest[e..];
    assert a[..e] == p[..e] && a[e'..] == rest[e'..];
    assert p[..e'] == p[..e] + p[e..e'];
  }

  /** After the first `n` audio fragments, in order, the state is
      `AudioLoading` and every fragment was acknowledged with its own index. */
  lemma {:induction false} AudioPrefix(payload: seq<Byte>, fs: seq<seq<Byte>>,
                                       states: seq<Receiver>, acks: seq<Option<Ack>>, n: nat)
    requires |payload| <= AudioBufferSize
    requires CarriesAll(fs, AudioTensorId, payload) && Trace(fs, states, acks)
    requires 0 < n <= |fs|
    ensures states[n] == AudioLoading(states[0], payload, n)
    ensures forall k | 0 <= k < n :: acks[k] == Some(Ack(AudioTensorId, k, 1))
  {
    if n == 1 {
      AudioTraceFirst(payload, fs, states, acks);
    } else {
      AudioPrefix(payload, fs, states, acks, n - 1);
      AudioTraceNext(payload, fs, states, acks, n - 1);
    }
  }

  /** The first frame of a trace that carries the audio input writes the
      first fragment at the front of the buffer and is acknowledged. */
  lemma AudioTraceFirst(payload: seq<Byte>, fs: seq<seq<Byte>>, states: seq<Receiver>, acks: seq<Option<Ack>>)
    requires |payload| <= AudioBufferSize
    requires CarriesAll(fs, AudioTensorId, payload) && Trace(fs, states, acks)
    requires 0 < |fs|
    ensures states[1] == AudioLoading(states[0], payload, 1)
    ensures acks[0] == Some(Ack(AudioTensorId, 0, 1))
  {
    assert Carries(fs[0], AudioTensorId, payload, 0);
    AudioFirst(states[0], payload, fs[0]);
  }

  /** Frame n of a trace that carries the audio input, arriving after the
      first n fragments, writes fragment n just past them and is
      acknowledged with its own index. */
  lemma AudioTraceNext(payload: seq<Byte>, fs: seq<seq<Byte>>, states: seq<Receiver>,
                       acks: seq<Option<Ack>>, n: nat)
    requires |payload| <= AudioBufferSize
    requires CarriesAll(fs, AudioTensorId, payload) && Trace(fs, states, acks)
    requires 0 < n < |fs| && states[n] == AudioLoading(states[0], payload, n)
    ensures states[n + 1] == AudioLoading(states[0], payload, n + 1)
    ensures acks[n] == Some(Ack(AudioTensorId, n, 1))
  {
    TotalFragmentsFits(|payload|);
    FragmentBounds(|payload|, n);
    FragmentsAdjacent(|payload|, n - 1);
    assert Carries(fs[n], AudioTensorId, payload, n);
    AudioNext(states[n], fs[n], payload, states[0].audio,
              FragmentEnd(|payload|, n - 1), FragmentEnd(|payload|, n));
  }

  /** The audio input, all of its fragments arriving in order: it sits at the
      front of the audio buffer, the audio cursor is at its length, the
      buffer is ready exactly when it was already or the input fills it, the
      DRAM arena and the tensor tables are untouched, and every fragment is
      acknowledged positively, in order. */
  lemma AudioArrives(payload: seq<Byte>, fs: seq<seq<Byte>>, states: seq<Receiver>, acks: seq<Option<Ack>>)
    requires |payload| <= AudioBufferSize
    requires CarriesAll(fs, AudioTensorId, payload) && Trace(fs, states, acks)
    ensures var s, r := states[0], states[|fs|];
      && r.audioOffset == |payload| && r.audio[..|payload|] == payload
      && r.audio[|payload|..] == s.audio[|payload|..]
      && r.audioReady == (s.audioReady || |payload| == AudioBufferSize)
      && r.arena == s.arena && r.offsets == s.offsets && r.sizes == s.sizes
      && r.tensorCount == s.tensorCount
    ensures forall k | 0 <= k < |fs| :: acks[k] == Some(Ack(AudioTensorId, k, 1))
  {
    AudioPrefix(payload, fs, states, acks, |fs|);
    FragmentsAdjacent(|payload|, |fs| - 1);
  }

  /** A full-length audio input (124 x 129 bytes) fills the buffer with
      exactly its bytes and sets the flag the firmware's main loop waits on. */
  lemma FullAudioArrives(payload: seq<Byte>, fs: seq<seq<Byte>>, states: seq<Receiver>, acks: seq<Option<Ack>>)
    requires |payload| == AudioBufferSize
    requires CarriesAll(fs, AudioTensorId, payload) && Trace(fs, states, acks)
    ensures states[|fs|].audio == payload && states[|fs|].audioReady
  {
    AudioArrives(payload, fs, states, acks);
  }

  /** The windows the sender's waits see when the firmware's answers reach
      it one per wait. */
  function AnswerWindows(acks: seq<Option<Ack>>): (ws: seq<seq<seq<Byte>>>)
    ensures |ws| == |acks|
    ensures forall i | 0 <= i < |acks| ::
              ws[i] == (if acks[i].Some? then [AckFrame(acks[i].value)] else [])
  {
    if acks == [] then []
    else [if acks[0].Some? then [AckFrame(acks[0].value)] else []] + AnswerWindows(acks[1..])
  }

  lemma {:induction false} AckWindowsIndex(tensorId: U32, k: nat, total: nat, i: nat)
    requires k <= total < 0x1_0000_0000 && i < total - k
    ensures AckWindows(tensorId, k, total)[i] == AckWindow(tensorId, k + i)
    decreases i
  {
    if i > 0 {
      AckWindowsIndex(tensorId, k + 1, total, i - 1);
    }
  }

  /** The closed loop: the firmware's answers to a tensor's fragments, fed
      back to the sender one per wait, make the resend loop send every
      fragment exactly once, in order, and finish. This holds for a model
      tensor and for the audio input (tensor 99) that fits the audio buffer. */
  lemma ClosedLoop(tensorId: U32, payload: seq<Byte>, fs: seq<seq<Byte>>,
                   states: seq<Receiver>, acks: seq<Option<Ack>>)
    requires tensorId != AudioTensorId || |payload| <= AudioBufferSize
    requires CarriesAll(fs, tensorId, payload) && Trace(fs, states, acks)
    ensures Run(tensorId, |fs|, 0, AnswerWindows(acks)) == (Upto(0, |fs|), |fs|)
  {
    TotalFragmentsFits(|payload|);
    var total := |fs|;
    if tensorId == AudioTensorId {
      AudioArrives(payload, fs, states, acks);
    } else {
      ModelTensorArrives(tensorId, payload, fs, states, acks);
    }
    forall i | 0 <= i < total
      ensures AnswerWindows(acks)[i] == AckWindows(tensorId, 0, total)[i]
    {
      AckWindowsIndex(tensorId, 0, total, i);
    }
    assert AnswerWindows(acks) == AckWindows(tensorId, 0, total);
    RunAllAcked(tensorId, total, 0);
  }

  /** A tensor record sent whole while `tensor_count` is below 18 (the
      firmware records table entries only then): `load_tensor_from_dram`
      finds it inside DRAM at the tensor's table entry and decodes it back. */
  lemma RecordArrives(t: Tensor, fs: seq<seq<Byte>>, states: seq<Receiver>, acks: seq<Option<Ack>>)
    requires Encodable(t) && t.id < TotalTensors
    requires CarriesAll(fs, t.id, Encode(t)) && Trace(fs, states, acks)
    requires states[0].tensorCount < TotalTensors
    ensures var r := states[|fs|];
      && RecordWithin(r.arena, r.offsets[t.id])
      && Decode(r.arena, r.offsets[t.id]) == t
  {
    var s, r := states[0], states[|fs|];
    assert r.offsets[t.id] == |s.arena| && r.arena == s.arena + Encode(t) by {
      ModelTensorArrives(t.id, Encode(t), fs, states, acks);
    }
    DecodeAppended(s.arena, t);
  }

  /** A record appended to any bytes decodes back from where it starts. */
  lemma DecodeAppended(prefix: seq<Byte>, t: Tensor)
    requires Encodable(t)
    ensures RecordWithin(prefix + Encode(t), |prefix|)
    ensures Decode(prefix + Encode(t), |prefix|) == t
  {
    var mem := prefix + Encode(t);
    assert mem[|prefix|..|prefix| + |Encode(t)|] == Encode(t);
    DecodeWindow(mem, |prefix|, t);
  }
}
