/**
  The PC-side sender (PC_code/Input_weight.py): how a tensor's bytes are cut
  into fragments and framed, how an acknowledgement window is judged
  (`wait_for_ack`), the resend loop of `send_tensor_fragments`, the
  single-frame path of `send_tensors_from_binary`, and the file walk that
  finds each tensor's block in the weights file.

  The network is a parameter: each call of `wait_for_ack` sees one "window",
  the sequence of frames `sniff` captures before its timeout.
*/
module Sender {
  import opened Bytes
  import opened Wire
  import opened TensorCodec
  import opened Wrappers

  /** max_payload_first = FRAGMENT_SIZE - FRAGMENT_HEADER_SIZE_FIRST */
  const MaxPayloadFirst: nat := 1380
  /** max_payload_normal = FRAGMENT_SIZE - FRAGMENT_HEADER_SIZE */
  const MaxPayloadNormal: nat := 1384

  function Min(a: int, b: int): int {
    if a <= b then a else b
  }

  // ---------------------------------------------------------------------
  // Fragmentation (PC_code/Input_weight.py:119-157)
  // ---------------------------------------------------------------------

  /** `total_fragments`: one fragment when the payload fits the first one,
      otherwise one more than the ceiling of the rest over 1384. The count is
      the least that carries the whole payload. */
  function TotalFragments(len: nat): (n: nat)
    ensures n >= 1
    ensures n == 1 <==> len <= MaxPayloadFirst
    ensures len <= MaxPayloadFirst + (n - 1) * MaxPayloadNormal
    ensures n > 1 ==> MaxPayloadFirst + (n - 2) * MaxPayloadNormal < len
  {
    if len <= MaxPayloadFirst then 1
    else
      var rest := len - MaxPayloadFirst;
      var q := (rest + MaxPayloadNormal - 1) / MaxPayloadNormal;
      assert q * MaxPayloadNormal <= rest + MaxPayloadNormal - 1 < (q + 1) * MaxPayloadNormal;
      1 + q
  }

  /** A payload below 2^32 bytes has a fragment count that fits a header word. */
  lemma TotalFragmentsFits(len: nat)
    requires len < 0x1_0000_0000
    ensures TotalFragments(len) < 0x1_0000_0000
  {
    if len > MaxPayloadFirst {
      var n := TotalFragments(len);
      assert MaxPayloadFirst + (n - 2) * MaxPayloadNormal < len;
    }
  }

  /** How many payload bytes fragment `k` may carry. */
  function Capacity(k: nat): nat {
    if k == 0 then MaxPayloadFirst else MaxPayloadNormal
  }

  /** Where fragment `k`'s slice begins: 0, then 1380 + (k-1)*1384. */
  function FragmentStart(k: nat): nat {
    if k == 0 then 0 else MaxPayloadFirst + (k - 1) * MaxPayloadNormal
  }

  /** Where fragment `k`'s slice ends: `min(start + capacity, len)`. */
  function FragmentEnd(len: nat, k: nat): nat {
    Min(FragmentStart(k) + Capacity(k), len)
  }

  /** Every fragment the sender sends starts inside the payload (or at 0). */
  lemma FragmentBounds(len: nat, k: nat)
    requires k < TotalFragments(len)
    ensures FragmentStart(k) <= FragmentEnd(len, k) <= len
    ensures k > 0 ==> FragmentStart(k) < FragmentEnd(len, k)
    ensures len > 0 ==> FragmentStart(k) < FragmentEnd(len, k)
  {
    if k > 0 {
      var n := TotalFragments(len);
      assert MaxPayloadFirst + (n - 2) * MaxPayloadNormal < len;
      assert (k - 1) * MaxPayloadNormal <= (n - 2) * MaxPayloadNormal;
    }
  }

  /** The payload bytes of fragment `k`: `payload[:1380]` for fragment 0,
      `payload[start:end]` after it. */
  function FragmentData(payload: seq<Byte>, k: nat): (d: seq<Byte>)
    requires k < TotalFragments(|payload|)
    ensures |d| <= Capacity(k)
    ensures |payload| > 0 ==> |d| > 0
  {
    FragmentBounds(|payload|, k);
    payload[FragmentStart(k)..FragmentEnd(|payload|, k)]
  }

  /** Consecutive fragments are adjacent, every fragment but the last is
      full, and the last one ends at the end of the payload. */
  lemma FragmentsAdjacent(len: nat, k: nat)
    requires k < TotalFragments(len)
    ensures k + 1 < TotalFragments(len) ==>
              FragmentEnd(len, k) == FragmentStart(k + 1)
              && FragmentEnd(len, k) - FragmentStart(k) == Capacity(k)
    ensures k + 1 == TotalFragments(len) ==> FragmentEnd(len, k) == len
  {
    var n := TotalFragments(len);
    if k + 1 < n {
      FragmentBounds(len, k + 1);
      assert FragmentStart(k + 1) == FragmentStart(k) + Capacity(k);
    } else if k > 0 {
      assert len <= MaxPayloadFirst + (n - 1) * MaxPayloadNormal;
    }
  }

  /** The concatenation of the first `n` fragments' data. */
  function Assembled(payload: seq<Byte>, n: nat): seq<Byte>
    requires n <= TotalFragments(|payload|)
  {
    if n == 0 then [] else Assembled(payload, n - 1) + FragmentData(payload, n - 1)
  }

  /** The first `n` fragments carry exactly the payload up to the end of
      fragment `n - 1`; all of them carry exactly the payload. */
  lemma {:induction false} AssembledPrefix(payload: seq<Byte>, n: nat)
    requires 0 < n <= TotalFragments(|payload|)
    ensures Assembled(payload, n) == payload[..FragmentEnd(|payload|, n - 1)]
  {
    FragmentBounds(|payload|, n - 1);
    if n > 1 {
      AssembledPrefix(payload, n - 1);
      FragmentsAdjacent(|payload|, n - 2);
      var a, b := FragmentEnd(|payload|, n - 2), FragmentEnd(|payload|, n - 1);
      assert payload[..b] == payload[..a] + payload[a..b];
    }
  }

  lemma FragmentsCoverPayload(payload: seq<Byte>)
    ensures Assembled(payload, TotalFragments(|payload|)) == payload
  {
    var n := TotalFragments(|payload|);
    AssembledPrefix(payload, n);
    FragmentsAdjacent(|payload|, n - 1);
  }

  /** The frame `send_frame` transmits for fragment `k` of a tensor: the
      20-byte header `(id, 0, total, len(payload), len(data))` for fragment 0,
      the 16-byte header `(id, k, total, len(data))` after it. */
  function FragmentFrame(tensorId: U32, payload: seq<Byte>, k: nat): (f: seq<Byte>)
    requires |payload| < 0x1_0000_0000 && k < TotalFragments(|payload|)
  {
    TotalFragmentsFits(|payload|);
    var total := TotalFragments(|payload|);
    var data := FragmentData(payload, k);
    if k == 0 then TransferFrame(FirstHeader(tensorId, total, |payload|, |data|) + data)
    else TransferFrame(NextHeader(tensorId, k, total, |data|) + data)
  }

  // ---------------------------------------------------------------------
  // Acknowledgement windows (PC_code/Input_weight.py:98-117)
  // ---------------------------------------------------------------------

  /** `ack_filter`: an ACK-typed frame whose payload has at least 9 bytes and
      names this tensor. */
  predicate AckFor(tensorId: U32, frame: seq<Byte>) {
    && |frame| >= EthHeaderSize + 9
    && frame[12] == AckTypeHi && frame[13] == AckTypeLo
    && UnpackAck(frame[EthHeaderSize..]).0 == tensorId
  }

  /** The packet `sniff(..., lfilter=ack_filter, count=1)` returns: the first
      frame of the window that passes the filter. */
  function FirstAck(tensorId: U32, window: seq<seq<Byte>>): (r: Option<seq<Byte>>)
    ensures r.Some? ==> AckFor(tensorId, r.value) && r.value in window
    ensures r.None? <==> forall f | f in window :: !AckFor(tensorId, f)
  {
    if window == [] then None
    else if AckFor(tensorId, window[0]) then Some(window[0])
    else FirstAck(tensorId, window[1..])
  }

  /** `wait_for_ack(tensor_id, fragment_index)`: `(True, index)` on a
      matching ACK, `(False, receiver's index)` on any other answer for the
      tensor, `(False, index)` when nothing arrives. */
  function WaitForAck(tensorId: U32, fragmentIndex: nat, window: seq<seq<Byte>>): (r: (bool, nat))
    ensures r.0 ==> r.1 == fragmentIndex
    ensures FirstAck(tensorId, window).None? ==> r == (false, fragmentIndex)
    ensures FirstAck(tensorId, window).Some? ==>
              var (_, index, status) := UnpackAck(FirstAck(tensorId, window).value[EthHeaderSize..]);
              && (r.0 <==> index == fragmentIndex && status == 1)
              && (!r.0 ==> r.1 == index)
  {
    match FirstAck(tensorId, window)
    case None => (false, fragmentIndex)
    case Some(frame) =>
      var (_, index, status) := UnpackAck(frame[EthHeaderSize..]);
      if index == fragmentIndex && status == 1 then (true, fragmentIndex)
      else (false, index)
  }

  /** What the sender concludes from the acknowledgement the firmware's
      `send_ack` transmits, whatever frames of other tensors or other
      EtherTypes arrive before it: success exactly for an ACK of the sent
      index, otherwise the index the receiver reports. */
  lemma {:induction false} WaitForAckOf(a: Ack, fragmentIndex: nat, others: seq<seq<Byte>>, later: seq<seq<Byte>>)
    requires forall f | f in others :: !AckFor(a.tensorId, f)
    ensures WaitForAck(a.tensorId, fragmentIndex, others + [AckFrame(a)] + later)
            == if a.fragmentIndex == fragmentIndex && a.status == 1 then (true, fragmentIndex)
               else (false, a.fragmentIndex)
  {
    AckRoundTrip(a);
    FirstAckSkips(a.tensorId, others, [AckFrame(a)] + later);
    assert others + [AckFrame(a)] + later == others + ([AckFrame(a)] + later);
  }

  lemma {:induction false} FirstAckSkips(tensorId: U32, others: seq<seq<Byte>>, rest: seq<seq<Byte>>)
    requires forall f | f in others :: !AckFor(tensorId, f)
    ensures FirstAck(tensorId, others + rest) == FirstAck(tensorId, rest)
  {
    if others != [] {
      var all := others + rest;
      assert others[0] in others && all[0] == others[0];
      assert !AckFor(tensorId, all[0]);
      assert all[1..] == others[1..] + rest;
      assert FirstAck(tensorId, all) == FirstAck(tensorId, all[1..]);
      assert forall f | f in others[1..] :: f in others;
      FirstAckSkips(tensorId, others[1..], rest);
    } else {
      assert others + rest == rest;
    }
  }

  // ---------------------------------------------------------------------
  // The resend loop of send_tensor_fragments (PC_code/Input_weight.py:135-176)
  // ---------------------------------------------------------------------

  /** The update of `current_frag` after a wait: the next fragment on
      success, the receiver's index when it names another one, else the same
      fragment again. */
  function Resync(current: nat, decision: (bool, nat)): (next: nat)
    ensures decision.0 ==> next == current + 1
    ensures !decision.0 ==> next == decision.1
  {
    if decision.0 then current + 1
    else if decision.1 != current then decision.1
    else current
  }

  /** The fragment indices the loop sends, from cursor `current` on, when its
      successive waits see `windows`, and the cursor it ends with. The loop
      stops once the cursor reaches `total`, or when the windows run out. */
  function Run(tensorId: U32, total: nat, current: nat, windows: seq<seq<seq<Byte>>>): (r: (seq<nat>, nat))
    decreases |windows|
  {
    if current >= total || windows == [] then ([], current)
    else
      var next := Resync(current, WaitForAck(tensorId, current, windows[0]));
      var rest := Run(tensorId, total, next, windows[1..]);
      ([current] + rest.0, rest.1)
  }

  /** Fragments are only sent while the cursor is below the total; one
      fragment is sent per wait; and a run that ends below the total has used
      every window. */
  lemma {:induction false} RunBounds(tensorId: U32, total: nat, current: nat, windows: seq<seq<seq<Byte>>>)
    ensures var (sent, final) := Run(tensorId, total, current, windows);
      && (forall i | 0 <= i < |sent| :: sent[i] < total)
      && |sent| <= |windows|
      && (final < total ==> |sent| == |windows|)
      && (current >= total ==> sent == [] && final == current)
    decreases |windows|
  {
    if current < total && windows != [] {
      var next := Resync(current, WaitForAck(tensorId, current, windows[0]));
      RunBounds(tensorId, total, next, windows[1..]);
    }
  }

  /** The window in which the firmware acknowledges fragment `k`. */
  function AckWindow(tensorId: U32, k: U32): seq<seq<Byte>> {
    [AckFrame(Ack(tensorId, k, 1))]
  }

  /** One acknowledgement per fragment, in order, from fragment `k` on. */
  function AckWindows(tensorId: U32, k: nat, total: nat): (ws: seq<seq<seq<Byte>>>)
    requires total < 0x1_0000_0000
    ensures |ws| == if k <= total then total - k else 0
    decreases total - k
  {
    if k >= total then [] else [AckWindow(tensorId, k)] + AckWindows(tensorId, k + 1, total)
  }

  /** The indices k, k+1, ..., total-1. */
  function Upto(k: nat, total: nat): (s: seq<nat>)
    ensures |s| == if k <= total then total - k else 0
    ensures forall i | 0 <= i < |s| :: s[i] == k + i
    decreases total - k
  {
    if k >= total then [] else [k] + Upto(k + 1, total)
  }

  /** When every fragment is acknowledged at once, the loop sends each
      fragment exactly once, in order, and ends at the total. */
  lemma {:induction false} RunAllAcked(tensorId: U32, total: nat, k: nat)
    requires k <= total < 0x1_0000_0000
    ensures Run(tensorId, total, k, AckWindows(tensorId, k, total)) == (Upto(k, total), total)
    decreases total - k
  {
    if k < total {
      WaitForAckOf(Ack(tensorId, k, 1), k, [], []);
      assert [] + [AckFrame(Ack(tensorId, k, 1))] + [] == AckWindow(tensorId, k);
      RunAllAcked(tensorId, total, k + 1);
    }
  }

  /** A NACK naming fragment `e` makes `e` the next fragment sent (or ends
      the loop when `e` is not below the total); a silent window resends the
      same fragment. */
  lemma RunResyncs(tensorId: U32, total: nat, current: nat, e: U32, windows: seq<seq<seq<Byte>>>)
    requires current < total
    ensures Run(tensorId, total, current, [[AckFrame(Ack(tensorId, e, 0))]] + windows)
            == ([current] + Run(tensorId, total, e, windows).0, Run(tensorId, total, e, windows).1)
    ensures Run(tensorId, total, current, [[]] + windows)
            == ([current] + Run(tensorId, total, current, windows).0, Run(tensorId, total, current, windows).1)
  {
    WaitForAckOf(Ack(tensorId, e, 0), current, [], []);
    assert [] + [AckFrame(Ack(tensorId, e, 0))] + [] == [AckFrame(Ack(tensorId, e, 0))];
    assert ([[AckFrame(Ack(tensorId, e, 0))]] + windows)[1..] == windows;
    assert ([[]] + windows)[1..] == windows;
  }

  /** `send_tensor_fragments(tensor_id, tensor_payload)`, with the `sniff`
      windows of its successive waits given: returns the frames sent, in
      order, and the final `current_frag`. */
  method SendTensorFragments(tensorId: U32, payload: seq<Byte>, windows: seq<seq<seq<Byte>>>)
    returns (sent: seq<seq<Byte>>, current: nat)
    requires |payload| < 0x1_0000_0000
    ensures var (indices, final) := Run(tensorId, TotalFragments(|payload|), 0, windows);
      && |sent| == |indices| && current == final
      && forall i | 0 <= i < |sent| ::
           indices[i] < TotalFragments(|payload|) && sent[i] == FragmentFrame(tensorId, payload, indices[i])
  {
    var totalFragments := TotalFragments(|payload|);
    current := 0;
    sent := [];
    ghost var indices: seq<nat> := [];
    ghost var whole := Run(tensorId, totalFragments, 0, windows);
    var pending := windows;
    assert indices + whole.0 == whole.0;
    while current < totalFragments && pending != []
      invariant |sent| == |indices|
      invariant forall i | 0 <= i < |indices| :: indices[i] < totalFragments
      invariant forall i {:trigger sent[i]} | 0 <= i < |sent| :: sent[i] == FragmentFrame(tensorId, payload, indices[i])
      invariant whole == (indices + Run(tensorId, totalFragments, current, pending).0,
                          Run(tensorId, totalFragments, current, pending).1)
      decreases |pending|
    {
      var decision := WaitForAck(tensorId, current, pending[0]);
      ghost var next := Resync(current, decision);
      ghost var later := Run(tensorId, totalFragments, next, pending[1..]);
      assert whole == ((indices + [current]) + later.0, later.1) by {
        assert Run(tensorId, totalFragments, current, pending) == ([current] + later.0, later.1);
        assert indices + ([current] + later.0) == (indices + [current]) + later.0;
      }
      sent := sent + [FragmentFrame(tensorId, payload, current)];
      indices := indices + [current];
      if decision.0 {
        current := current + 1;
      } else if decision.1 != current {
        current := decision.1;
      }
      assert current == next;
      pending := pending[1..];
    }
    RunBounds(tensorId, totalFragments, 0, windows);
  }

  // ---------------------------------------------------------------------
  // The single-frame path of send_tensors_from_binary
  // (PC_code/Input_weight.py:247-264)
  // ---------------------------------------------------------------------

  /** The frame of a tensor that fits one fragment: header
      `(id, 0, 1, len, len)` and the whole payload. It is the frame the
      fragmenting path would send as fragment 0. */
  function SingleFrame(tensorId: U32, payload: seq<Byte>): (f: seq<Byte>)
    requires |payload| <= MaxPayloadFirst
    ensures f == FragmentFrame(tensorId, payload, 0)
  {
    assert FragmentData(payload, 0) == payload;
    TransferFrame(FirstHeader(tensorId, 1, |payload|, |payload|) + payload)
  }

  /** `wait_for_ack(tensor_id, 0)` reports success. */
  predicate Acked(tensorId: U32, window: seq<seq<Byte>>) {
    WaitForAck(tensorId, 0, window).0
  }

  /** Send, then wait, until a wait succeeds: how many sends happen, and
      whether the tensor ends acknowledged, when the waits see `windows`. */
  function Resends(tensorId: U32, windows: seq<seq<seq<Byte>>>): (r: (nat, bool))
    ensures r.0 <= |windows|
  {
    if windows == [] then (0, false)
    else if Acked(tensorId, windows[0]) then (1, true)
    else (1 + Resends(tensorId, windows[1..]).0, Resends(tensorId, windows[1..]).1)
  }

  /** The single-frame path AS WRITTEN: it waits once before the first send,
      and only then enters the send-and-wait loop. */
  function SingleAsWritten(tensorId: U32, windows: seq<seq<seq<Byte>>>): (r: (nat, bool))
  {
    if windows == [] then (0, false)
    else if Acked(tensorId, windows[0]) then (0, true)
    else Resends(tensorId, windows[1..])
  }

  /** An acknowledgement of fragment 0 already in the first window (a
      late ACK of an earlier send of the same tensor id) ends the as-written
      path with the tensor counted as sent although no frame was sent. */
  lemma StaleAckSkipsSend(tensorId: U32, later: seq<seq<seq<Byte>>>)
    ensures SingleAsWritten(tensorId, [AckWindow(tensorId, 0)] + later) == (0, true)
  {
    WaitForAckOf(Ack(tensorId, 0, 1), 0, [], []);
    assert [] + [AckFrame(Ack(tensorId, 0, 1))] + [] == AckWindow(tensorId, 0);
  }

  /** Otherwise the first wait only costs a timeout: the as-written path is
      the send-and-wait loop on the remaining windows. */
  lemma FirstWaitWasted(tensorId: U32, first: seq<seq<Byte>>, later: seq<seq<seq<Byte>>>)
    requires !Acked(tensorId, first)
    ensures SingleAsWritten(tensorId, [first] + later) == Resends(tensorId, later)
  {
    assert ([first] + later)[1..] == later;
  }

  /** The send-and-wait loop sends once per window up to and including the
      first one that acknowledges fragment 0, and reports success exactly
      when there is such a window. */
  lemma {:induction false} ResendsUntilAck(tensorId: U32, windows: seq<seq<seq<Byte>>>, i: nat)
    requires i <= |windows|
    requires forall j | 0 <= j < i :: !Acked(tensorId, windows[j])
    requires i < |windows| ==> Acked(tensorId, windows[i])
    ensures Resends(tensorId, windows) == if i < |windows| then (i + 1, true) else (i, false)
  {
    if windows != [] && i > 0 {
      assert !Acked(tensorId, windows[0]);
      assert forall j | 0 <= j < i - 1 :: windows[1..][j] == windows[j + 1];
      ResendsUntilAck(tensorId, windows[1..], i - 1);
    }
  }

  /** The corrected single-frame path: send, then wait, until acknowledged.
      Returns the frames sent and whether the tensor ended acknowledged. */
  method SendSingleFrame(tensorId: U32, payload: seq<Byte>, windows: seq<seq<seq<Byte>>>)
    returns (sent: seq<seq<Byte>>, acked: bool)
    requires |payload| <= MaxPayloadFirst
    ensures |sent| == Resends(tensorId, windows).0 && acked == Resends(tensorId, windows).1
    ensures forall i | 0 <= i < |sent| :: sent[i] == SingleFrame(tensorId, payload)
  {
    var frame := SingleFrame(tensorId, payload);
    sent := [];
    acked := false;
    var round := 0;
    while !acked && round < |windows|
      invariant round <= |windows| && |sent| == round
      invariant forall i | 0 <= i < |sent| :: sent[i] == frame
      invariant forall j | 0 <= j < round - 1 :: !Acked(tensorId, windows[j])
      invariant round > 0 ==> acked == Acked(tensorId, windows[round - 1])
      invariant round == 0 ==> !acked
      decreases |windows| - round
    {
      sent := sent + [frame];
      acked := WaitForAck(tensorId, 0, windows[round]).0;
      round := round + 1;
    }
    ResendsUntilAck(tensorId, windows, if acked then round - 1 else round);
  }

  /** The single-frame path as written: one wait before the loop. */
  method SendSingleFrameAsWritten(tensorId: U32, payload: seq<Byte>, windows: seq<seq<seq<Byte>>>)
    returns (sent: seq<seq<Byte>>, acked: bool)
    requires |payload| <= MaxPayloadFirst
    ensures |sent| == SingleAsWritten(tensorId, windows).0 && acked == SingleAsWritten(tensorId, windows).1
    ensures forall i | 0 <= i < |sent| :: sent[i] == SingleFrame(tensorId, payload)
  {
    if windows == [] {
      return [], false;
    }
    acked := WaitForAck(tensorId, 0, windows[0]).0;
    if acked {
      return [], true;
    }
    sent, acked := SendSingleFrame(tensorId, payload, windows[1..]);
  }

  // ---------------------------------------------------------------------
  // Walking the weights file (PC_code/Input_weight.py:193-245)
  // ---------------------------------------------------------------------

  /** `f.read(n)` at position `pos`: the bytes up to the end of the file. */
  function Chunk(file: seq<Byte>, pos: nat, n: nat): (c: seq<Byte>)
    ensures |c| <= n
  {
    if pos >= |file| then [] else file[pos..Min(pos + n, |file|)]
  }

  /** The position after `f.read(n)`: it stops at the end of the file, and a
      position past the end (after a `seek`) does not move. */
  function After(file: seq<Byte>, pos: nat, n: nat): nat {
    if pos >= |file| then pos else Min(pos + n, |file|)
  }

  /** A read of four bytes is whole exactly when the word lies in the file,
      and then it is that word and the cursor moves past it. */
  lemma ReadWord(file: seq<Byte>, pos: nat)
    ensures |Chunk(file, pos, 4)| == 4 <==> pos + 4 <= |file|
    ensures pos + 4 <= |file| ==>
              GetU32(Chunk(file, pos, 4), 0) == GetU32(file, pos) && After(file, pos, 4) == pos + 4
  {
    if pos + 4 <= |file| {
      GetU32Window(file, pos, Chunk(file, pos, 4), 0);
    }
  }

  /** Reading from a position clamped to the end of the file. */
  lemma ReadClamped(file: seq<Byte>, x: nat)
    ensures After(file, Min(x, |file|), 4) == Min(x + 4, |file|)
    ensures |Chunk(file, Min(x, |file|), 4)| == 4 <==> x + 4 <= |file|
  {
  }

  /** Every count word of the record header starting at `at` lies in the
      file; the data need not. */
  predicate HeaderWithin(file: seq<Byte>, at: nat) {
    && at + 8 <= |file|
    && ScalesAt(file, at) + 8 <= |file|
    && ZeroPointsAt(file, at) + 4 <= |file|
    && DataLengthAt(file, at) + 4 <= |file|
  }

  /** What the walk finds at `start`: the end of the file (the id read comes
      back short, so the loop breaks), a record whose header runs past the
      end of the file (a count read comes back short and `struct.unpack`
      raises), or a block with its id and the position after its data. */
  datatype Scan = EndOfFile | Malformed | Block(id: U32, end: nat)

  function ScanOf(file: seq<Byte>, start: nat): (r: Scan)
    ensures r.EndOfFile? <==> start + 4 > |file|
    ensures r.Block? ==> HeaderWithin(file, start) && start + 24 <= r.end
  {
    if start + 4 > |file| then EndOfFile
    else if !HeaderWithin(file, start) then Malformed
    else
      var p3 := DataLengthAt(file, start);
      Block(GetU32(file, start), p3 + 4 + GetU32(file, p3))
  }

  /** The block size `tensor_end - tensor_start` is
      24 + 4*(num_dims + num_scales + num_zero_points) + data_length, read
      from the block's own count words: the bytes `load_tensor_from_dram`
      consumes for the same record. */
  lemma BlockSize(file: seq<Byte>, start: nat)
    requires ScanOf(file, start).Block?
    ensures var p1, p2, p3 := ScalesAt(file, start), ZeroPointsAt(file, start), DataLengthAt(file, start);
      ScanOf(file, start).end - start
      == RecordSize(GetU32(file, start + 4), GetU32(file, p1 + 4), GetU32(file, p2), GetU32(file, p3))
    ensures RecordWithin(file, start) ==>
      var t := Decode(file, start);
      ScanOf(file, start) == Block(t.id, start + RecordSize(|t.dims|, |t.scales|, |t.zeroPoints|, |t.data|))
  {
  }

  /** An encoded record is found as one block, with its own id, ending
      right after its last data byte. */
  lemma ScanEncoded(file: seq<Byte>, at: nat, t: Tensor)
    requires Encodable(t)
    requires HoldsAt(file, at, Encode(t))
    ensures ScanOf(file, at) == Block(t.id, at + |Encode(t)|)
  {
    DecodeWindow(file, at, t);
    BlockSize(file, at);
  }

  /** `f.read(4)` repeated `n` times from `pos`. */
  method SkipWords(file: seq<Byte>, pos: nat, n: nat) returns (p: nat)
    ensures p == if pos >= |file| then pos else Min(pos + 4 * n, |file|)
  {
    p := pos;
    for i := 0 to n
      invariant p == if pos >= |file| then pos else Min(pos + 4 * i, |file|)
    {
      p := After(file, p, 4);
    }
  }

  /** One pass of the `for t in range(num_tensors)` body up to `tensor_end`:
      the cursor walk over the id, the dimensions, the data type, the scales,
      the zero points and the data length, then `f.seek(data_length, 1)`. */
  method ScanBlock(file: seq<Byte>, start: nat) returns (r: Scan)
    ensures r == ScanOf(file, start)
  {
    var pos := start;
    var word := Chunk(file, pos, 4);
    ReadWord(file, pos);
    pos := After(file, pos, 4);
    if |word| < 4 {
      return EndOfFile;
    }
    var tensorId := GetU32(word, 0);

    word := Chunk(file, pos, 4);
    ReadWord(file, pos);
    pos := After(file, pos, 4);
    if |word| < 4 {
      return Malformed;
    }
    var numDims: nat := GetU32(word, 0);
    pos := SkipWords(file, pos, numDims);
    ghost var p1 := ScalesAt(file, start);
    assert pos == Min(p1, |file|);

    ReadClamped(file, p1);
    pos := After(file, pos, 4);            // data type
    word := Chunk(file, pos, 4);
    ReadClamped(file, p1 + 4);
    if |word| < 4 {
      return Malformed;
    }
    ReadWord(file, p1 + 4);
    pos := After(file, pos, 4);
    var numScales: nat := GetU32(word, 0);
    pos := SkipWords(file, pos, numScales);
    ghost var p2 := ZeroPointsAt(file, start);
    assert pos == Min(p2, |file|);

    word := Chunk(file, pos, 4);
    ReadClamped(file, p2);
    if |word| < 4 {
      return Malformed;
    }
    ReadWord(file, p2);
    pos := After(file, pos, 4);
    var numZeroPoints: nat := GetU32(word, 0);
    pos := SkipWords(file, pos, numZeroPoints);
    ghost var p3 := DataLengthAt(file, start);
    assert pos == Min(p3, |file|);

    word := Chunk(file, pos, 4);
    ReadClamped(file, p3);
    if |word| < 4 {
      return Malformed;
    }
    ReadWord(file, p3);
    pos := After(file, pos, 4);
    var dataLength: nat := GetU32(word, 0);
    pos := pos + dataLength;               // f.seek(data_length, 1)
    return Block(tensorId, pos);
  }

  /** A tensor block as the walk finds it: its id, `tensor_start` and
      `tensor_size = tensor_end - tensor_start`. */
  datatype Span = Span(id: U32, start: nat, size: nat)

  /** The blocks the walk finds, and whether it ended in an exception. */
  datatype Listing = Listing(blocks: seq<Span>, failed: bool)

  /** At most `count` blocks from `pos` on. */
  function Blocks(file: seq<Byte>, pos: nat, count: nat): Listing
    decreases count
  {
    if count == 0 then Listing([], false)
    else match ScanOf(file, pos)
      case EndOfFile => Listing([], false)
      case Malformed => Listing([], true)
      case Block(id, end) =>
        var rest := Blocks(file, end, count - 1);
        Listing([Span(id, pos, end - pos)] + rest.blocks, rest.failed)
  }

  /** One turn of the walk, seen from the blocks already listed: a block
      found is appended and the walk goes on from its end; otherwise the walk
      stops, with an exception exactly at a malformed header. */
  lemma BlocksTurn(file: seq<Byte>, pos: nat, count: nat, done: seq<Span>)
    requires count > 0
    ensures var scan, whole := ScanOf(file, pos), Blocks(file, pos, count);
      && (scan.Block? ==>
            var rest := Blocks(file, scan.end, count - 1);
            && done + whole.blocks == (done + [Span(scan.id, pos, scan.end - pos)]) + rest.blocks
            && whole.failed == rest.failed)
      && (!scan.Block? ==> done + whole.blocks == done && whole.failed == scan.Malformed?)
  {
    var scan := ScanOf(file, pos);
    if scan.Block? {
      var rest := Blocks(file, scan.end, count - 1);
      var span := Span(scan.id, pos, scan.end - pos);
      assert Blocks(file, pos, count).blocks == [span] + rest.blocks;
      assert done + ([span] + rest.blocks) == (done + [span]) + rest.blocks;
    } else {
      assert done + [] == done;
    }
  }

  /** The whole file: a count word, then that many blocks. */
  function ListFile(file: seq<Byte>): Listing {
    if |file| < 4 then Listing([], false) else Blocks(file, 4, GetU32(file, 0))
  }

  /** One turn of the walk at `pos` with `count` blocks still allowed,
      after the blocks `done`: the block found is appended and the walk
      goes on from its end; otherwise the walk stops, and the listing is
      complete. */
  method TensorTurn(file: seq<Byte>, pos: nat, count: nat, done: seq<Span>) returns (scan: Scan, done': seq<Span>)
    requires count > 0
    ensures scan == ScanOf(file, pos)
    ensures scan.Block? ==>
      && done' == done + [Span(scan.id, pos, scan.end - pos)]
      && done + Blocks(file, pos, count).blocks == done' + Blocks(file, scan.end, count - 1).blocks
      && Blocks(file, pos, count).failed == Blocks(file, scan.end, count - 1).failed
    ensures !scan.Block? ==>
      && done' == done
      && Listing(done + Blocks(file, pos, count).blocks, Blocks(file, pos, count).failed) == Listing(done, scan.Malformed?)
  {
    BlocksTurn(file, pos, count, done);
    scan := ScanBlock(file, pos);
    done' := done;
    if scan.Block? {
      done' := done + [Span(scan.id, pos, scan.end - pos)];
    }
  }

  /** The walk of `send_tensors_from_binary` over the whole file. */
  method TensorBlocks(file: seq<Byte>) returns (listing: Listing)
    ensures listing == ListFile(file)
  {
    if |file| < 4 {
      return Listing([], false);
    }
    var numTensors := GetU32(file, 0);
    ghost var whole := Blocks(file, 4, numTensors);
    var blocks: seq<Span> := [];
    var pos: nat := 4;
    for t := 0 to numTensors
      invariant whole == Listing(blocks + Blocks(file, pos, numTensors - t).blocks,
                                 Blocks(file, pos, numTensors - t).failed)
    {
      var scan;
      scan, blocks := TensorTurn(file, pos, numTensors - t, blocks);
      if !scan.Block? {
        return Listing(blocks, scan.Malformed?);
      }
      pos := scan.end;
    }
    assert blocks + [] == blocks;
    return Listing(blocks, false);
  }

  /** The bytes sent for a block: `f.seek(tensor_start)` then
      `f.read(tensor_size)`. */
  function Payloads(file: seq<Byte>, spans: seq<Span>): (r: seq<(U32, seq<Byte>)>)
    ensures |r| == |spans|
  {
    if spans == [] then []
    else [(spans[0].id, Chunk(file, spans[0].start, spans[0].size))] + Payloads(file, spans[1..])
  }

  /** Byte runs laid end to end. */
  function Concat(rs: seq<seq<Byte>>): seq<Byte> {
    if rs == [] then [] else rs[0] + Concat(rs[1..])
  }

  /** Each tensor's record. */
  function Encodings(ts: seq<Tensor>): (rs: seq<seq<Byte>>)
    requires forall i | 0 <= i < |ts| :: Encodable(ts[i])
    ensures |rs| == |ts|
  {
    if ts == [] then [] else [Encode(ts[0])] + Encodings(ts[1..])
  }

  function Ids(ts: seq<Tensor>): (ids: seq<U32>)
    ensures |ids| == |ts|
  {
    if ts == [] then [] else [ts[0].id] + Ids(ts[1..])
  }

  /** The `i`-th record and id are those of the `i`-th tensor. */
  lemma {:induction false} EncodingsIndex(ts: seq<Tensor>, i: nat)
    requires forall j | 0 <= j < |ts| :: Encodable(ts[j])
    requires i < |ts|
    ensures Encodings(ts)[i] == Encode(ts[i]) && Ids(ts)[i] == ts[i].id
  {
    if i > 0 {
      EncodingsIndex(ts[1..], i - 1);
    }
  }

  /** The weights file the model exporter writes: the tensor count, then
      each tensor's record. */
  function BinaryFile(ts: seq<Tensor>): seq<Byte>
    requires |ts| < 0x1_0000_0000
    requires forall i | 0 <= i < |ts| :: Encodable(ts[i])
  {
    PutU32(|ts|) + Concat(Encodings(ts))
  }

  /** Where runs `rs` with ids `ids` lie when the first starts at `at`. */
  function SpansOf(ids: seq<U32>, rs: seq<seq<Byte>>, at: nat): (r: seq<Span>)
    requires |ids| == |rs|
    ensures |r| == |rs|
  {
    if rs == [] then [] else [Span(ids[0], at, |rs[0]|)] + SpansOf(ids[1..], rs[1..], at + |rs[0]|)
  }

  /** Ids paired with runs. */
  function Zip(ids: seq<U32>, rs: seq<seq<Byte>>): (r: seq<(U32, seq<Byte>)>)
    requires |ids| == |rs|
    ensures |r| == |rs|
    ensures forall i | 0 <= i < |r| :: r[i] == (ids[i], rs[i])
  {
    if rs == [] then [] else [(ids[0], rs[0])] + Zip(ids[1..], rs[1..])
  }

  /** `file` holds `run` from `at` on. */
  predicate HoldsAt(file: seq<Byte>, at: nat, run: seq<Byte>) {
    at + |run| <= |file| && file[at..at + |run|] == run
  }

  /** Runs held end to end from `at`: the first, then the rest right after. */
  lemma ConcatSplit(file: seq<Byte>, at: nat, rs: seq<seq<Byte>>)
    requires rs != [] && HoldsAt(file, at, Concat(rs))
    ensures HoldsAt(file, at, rs[0])
    ensures HoldsAt(file, at + |rs[0]|, Concat(rs[1..]))
  {
    var whole, first, rest := Concat(rs), rs[0], Concat(rs[1..]);
    assert whole == first + rest;
    assert file[at..at + |first|] == whole[..|first|];
    assert file[at + |first|..at + |first| + |rest|] == whole[|first|..];
  }

  /** The walk from `at` finds each of `spans` in turn, each starting
      where the previous one ends. */
  predicate Chain(file: seq<Byte>, at: nat, spans: seq<Span>) {
    && (spans != [] ==> spans[0].start == at)
    && (forall i | 0 <= i < |spans| - 1 :: spans[i + 1].start == spans[i].start + spans[i].size)
    && (forall i {:trigger ScanOf(file, spans[i].start)} | 0 <= i < |spans| ::
          ScanOf(file, spans[i].start) == Block(spans[i].id, spans[i].start + spans[i].size))
  }

  /** A chain is its first block followed by a chain. */
  lemma ChainTail(file: seq<Byte>, at: nat, spans: seq<Span>)
    requires spans != [] && Chain(file, at, spans)
    ensures spans[0].start == at
    ensures ScanOf(file, at) == Block(spans[0].id, at + spans[0].size)
    ensures Chain(file, at + spans[0].size, spans[1..])
  {
    var tail := spans[1..];
    assert ScanOf(file, spans[0].start) == Block(spans[0].id, spans[0].start + spans[0].size);
    forall i | 0 <= i < |tail|
      ensures ScanOf(file, tail[i].start) == Block(tail[i].id, tail[i].start + tail[i].size)
    {
      assert tail[i] == spans[i + 1];
      assert ScanOf(file, spans[i + 1].start) == Block(spans[i + 1].id, spans[i + 1].start + spans[i + 1].size);
    }
  }

  /** The walk lists a chain of blocks as it is, without an exception. */
  lemma {:induction false} BlocksOfChain(file: seq<Byte>, at: nat, spans: seq<Span>)
    requires Chain(file, at, spans)
    ensures Blocks(file, at, |spans|) == Listing(spans, false)
    decreases |spans|
  {
    if spans != [] {
      var next := at + spans[0].size;
      ChainTail(file, at, spans);
      BlocksOfChain(file, next, spans[1..]);
      assert spans == [Span(spans[0].id, at, next - at)] + spans[1..];
    }
  }

  /** Where the `i`-th of runs `rs` starts when the first starts at `at`. */
  function Offset(rs: seq<seq<Byte>>, at: nat, i: nat): nat
    requires i <= |rs|
  {
    if i == 0 then at else Offset(rs[1..], at + |rs[0]|, i - 1)
  }

  /** The `i`-th span lies at the `i`-th offset and has the `i`-th run's size. */
  lemma {:induction false} SpansOfIndex(ids: seq<U32>, rs: seq<seq<Byte>>, at: nat, i: nat)
    requires |ids| == |rs| && i < |rs|
    ensures SpansOf(ids, rs, at)[i] == Span(ids[i], Offset(rs, at, i), |rs[i]|)
    decreases i
  {
    if i > 0 {
      SpansOfIndex(ids[1..], rs[1..], at + |rs[0]|, i - 1);
    }
  }

  /** Each of runs held end to end is held at its own offset. */
  lemma {:induction false} ConcatAt(file: seq<Byte>, at: nat, rs: seq<seq<Byte>>, i: nat)
    requires HoldsAt(file, at, Concat(rs)) && i < |rs|
    ensures HoldsAt(file, Offset(rs, at, i), rs[i])
    decreases i
  {
    ConcatSplit(file, at, rs);
    if i > 0 {
      ConcatAt(file, at + |rs[0]|, rs[1..], i - 1);
    }
  }

  /** Each span starts where the one before it ends. */
  lemma {:induction false} SpansAdjacent(ids: seq<U32>, rs: seq<seq<Byte>>, at: nat, i: nat)
    requires |ids| == |rs| && i + 1 < |rs|
    ensures SpansOf(ids, rs, at)[i + 1].start == SpansOf(ids, rs, at)[i].start + SpansOf(ids, rs, at)[i].size
    decreases i
  {
    if i > 0 {
      SpansAdjacent(ids[1..], rs[1..], at + |rs[0]|, i - 1);
    }
  }

  /** The walk finds the `i`-th of a run of records held end to end as a
      block with its tensor's id. */
  lemma RecordAt(file: seq<Byte>, at: nat, ts: seq<Tensor>, i: nat)
    requires forall j | 0 <= j < |ts| :: Encodable(ts[j])
    requires HoldsAt(file, at, Concat(Encodings(ts))) && i < |ts|
    ensures var rs := Encodings(ts);
      ScanOf(file, Offset(rs, at, i)) == Block(Ids(ts)[i], Offset(rs, at, i) + |rs[i]|)
  {
    var rs := Encodings(ts);
    var o := Offset(rs, at, i);
    assert HoldsAt(file, o, Encode(ts[i])) && Ids(ts)[i] == ts[i].id && rs[i] == Encode(ts[i]) by {
      ConcatAt(file, at, rs, i);
      EncodingsIndex(ts, i);
    }
    ScanEncoded(file, o, ts[i]);
  }

  /** Records held end to end form a chain of blocks. */
  lemma ChainOfRecords(file: seq<Byte>, at: nat, ts: seq<Tensor>)
    requires forall j | 0 <= j < |ts| :: Encodable(ts[j])
    requires HoldsAt(file, at, Concat(Encodings(ts)))
    ensures Chain(file, at, SpansOf(Ids(ts), Encodings(ts), at))
  {
    var ids, rs := Ids(ts), Encodings(ts);
    var spans := SpansOf(ids, rs, at);
    if ts != [] {
      SpansOfIndex(ids, rs, at, 0);
    }
    forall i | 0 <= i < |ts| - 1
      ensures spans[i + 1].start == spans[i].start + spans[i].size
    {
      SpansAdjacent(ids, rs, at, i);
    }
    forall i | 0 <= i < |ts|
      ensures ScanOf(file, spans[i].start) == Block(spans[i].id, spans[i].start + spans[i].size)
    {
      SpansOfIndex(ids, rs, at, i);
      RecordAt(file, at, ts, i);
    }
  }

  /** Re-reading each span of a run gives back each run. */
  lemma {:induction false} PayloadsOfRuns(file: seq<Byte>, at: nat, ids: seq<U32>, rs: seq<seq<Byte>>)
    requires |ids| == |rs| && HoldsAt(file, at, Concat(rs))
    ensures Payloads(file, SpansOf(ids, rs, at)) == Zip(ids, rs)
    decreases |rs|
  {
    if rs != [] {
      ConcatSplit(file, at, rs);
      PayloadsOfRuns(file, at + |rs[0]|, ids[1..], rs[1..]);
    }
  }

  /** The walk over an exported weights file hands over every tensor, in
      order, with exactly its own record as the bytes to send, and ends
      without an exception. */
  lemma {:induction false} ListBinaryFile(ts: seq<Tensor>)
    requires |ts| < 0x1_0000_0000
    requires forall i | 0 <= i < |ts| :: Encodable(ts[i])
    ensures ListFile(BinaryFile(ts)) == Listing(SpansOf(Ids(ts), Encodings(ts), 4), false)
    ensures Payloads(BinaryFile(ts), ListFile(BinaryFile(ts)).blocks) == Zip(Ids(ts), Encodings(ts))
  {
    var count, rs := PutU32(|ts|), Encodings(ts);
    var file := BinaryFile(ts);
    assert file == count + Concat(rs);
    GetPutU32(|ts|, [], Concat(rs));
    assert [] + count + Concat(rs) == file;
    assert HoldsAt(file, 4, Concat(rs));
    ChainOfRecords(file, 4, ts);
    BlocksOfChain(file, 4, SpansOf(Ids(ts), rs, 4));
    PayloadsOfRuns(file, 4, Ids(ts), rs);
  }
}
