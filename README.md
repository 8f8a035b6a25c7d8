# FPGA speech-command recogniser: transfer protocol and accelerated inference, in Dafny

The system recognises spoken commands on an FPGA. A PC script
(`PC_code/Input_weight.py`) reads a file of quantized model tensors. It
cuts each tensor into Ethernet fragments and sends them with a
stop-and-wait protocol. Raw Ethernet frames of EtherType 0x88B5 carry the
data, and each frame waits for an ACK or NACK frame of EtherType 0x88B7.

MicroBlaze firmware (`Microblaze/ACC.c`) reassembles the fragments.
Model tensors go into a DRAM arena, with an 18-entry table of offsets and
sizes. The audio spectrogram (tensor 99) goes into a fixed
124 x 129-byte buffer. The firmware decodes tensor records back out of
DRAM and runs the int8 network: two 3x3 convolutions, max pooling and
fully connected layers. Every 3x3 multiply-accumulate runs on a hardware
accelerator with two register slots.

The project models these parts:

* `bytes.dfy` (`Bytes`): little-endian words (`get_u32`, `struct.pack("<I")`) and 32-bit wrap-around.
* `wire.dfy` (`Wire`): the frame layouts, the fragment headers and the `send_ack` frame, with their constants.
* `reassembler.dfy` (`Reassembler`): `process_packet`. `Step` is a pure function from the transfer state and one frame to the new state and the acknowledgement sent. `TransferSession` is a class holding the firmware's globals, fixed tables and audio buffer as fields and arrays. Its `ProcessPacket` is proved to behave exactly as `Step`. Both follow the firmware's code except for one correction: the table write of a first fragment is also guarded by the id (Findings row 1), so an id of 18 or more sets `tensor_count` but writes no table entry.
* `tensor_codec.dfy` (`TensorCodec`): the tensor record, its encoding, and `load_tensor_from_dram` as a method whose pointer walks the arena.
* `sender.dfy` (`Sender`): fragmentation, `wait_for_ack`, the resend loop of `send_tensor_fragments`, the single-frame path, and the walk over the weights file in `send_tensors_from_binary`.
* `transfer.dfy` (`Transfer`): both ends together. Fragments sent in order are reassembled into exactly the tensor, acknowledged one by one, and the sender's loop driven by those acknowledgements sends each fragment once.
* `accelerator.dfy` (`Accelerator`): the accelerator driver (`accel_conv3x3_buffer`, `read_accelerator_results`). The hardware is an oracle `respond` that answers each started operation.
* `layers.dfy`, `conv1.dfy`, `conv2.dfy`, `maxpool.dfy`, `fc.dfy`: the inference layers, as methods over arrays. Each states exactly which accelerator operations it starts, in which order, and which activation it stores at which index.

## Model

| member | source | states |
|---|---|---|
| Bytes.AsInt32 | Microblaze/ACC.c:500 | a C conversion to `int`: the result is a 32-bit signed value congruent to the input modulo 2^32 |
| Bytes.ToU32 | Microblaze/ACC.c:196 | a conversion to `u32`: the result is congruent to the input modulo 2^32 and fits 32 bits |
| Bytes.PutU32 | PC_code/Input_weight.py:139-157 | `struct.pack("<I")` yields exactly four bytes |
| Bytes.GetPutU32 | Microblaze/ACC.c:102-107 | `get_u32` reads back any word packed little-endian, wherever it sits |
| Bytes.PutGetU32 | Microblaze/ACC.c:102-107 | packing the word `get_u32` read gives back the four bytes it read |
| Bytes.WordDigits | Microblaze/ACC.c:102-107 | a 32-bit word is the weighted sum of its four bytes, which is why the OR of shifted bytes loses nothing |
| Bytes.GetPutU32s | Microblaze/ACC.c:311-314 | a run of packed words read back with a walking pointer gives the run, whatever surrounds it |
| Bytes.GetPutU32sAt | Microblaze/ACC.c:311-314 | any single word of a packed run reads back at its own offset |
| Bytes.GetU32sIndex | Microblaze/ACC.c:311-314 | the i-th word collected by the walking loop is the word at offset 4i |
| Bytes.AsInt32ToU32 | Microblaze/ACC.c:342 | `(int)get_u32(...)` recovers a signed zero point from its 32-bit pattern |
| Bytes.AsInt32Add | Microblaze/ACC.c:582 | accumulating in a wrapping `int` equals wrapping the true sum once |
| Wire.TransferFrame | PC_code/Input_weight.py:91-95 | the PC's frame has the 14-byte Ethernet header, EtherType bytes 0x88 0xB5, then the payload unchanged |
| Wire.FirstHeader | PC_code/Input_weight.py:139-146 | the first-fragment header is 20 bytes |
| Wire.NextHeader | PC_code/Input_weight.py:151-157 | a later fragment's header is 16 bytes |
| Wire.FirstHeaderFields | Microblaze/ACC.c:151-164 | the firmware reads back every field the sender packed into a first-fragment header, and the data follows it |
| Wire.NextHeaderFields | Microblaze/ACC.c:151-153 | the same for a later fragment's four fields (read at Microblaze/ACC.c:184) |
| Wire.AckPayload | Microblaze/ACC.c:109-114 | the `AckPacket` struct occupies 12 bytes |
| Wire.AckFrame | Microblaze/ACC.c:116-132 | the ACK frame is 26 bytes: destination PC MAC, source FPGA MAC, EtherType 0x88B7 |
| Wire.AckRoundTrip | PC_code/Input_weight.py:104-111 | `struct.unpack("<IIB")` on the PC recovers exactly the tensor id, fragment index and status `send_ack` sent |
| Accelerator.Unsigned | Microblaze/ACC.c:395-419 | `(unsigned char)` of every operand byte, lane by lane |
| Accelerator.SlotOf | Microblaze/ACC.c:376-392 | buffer set 0 selects slot 0 and any other value selects slot 1 |
| Accelerator.PackOp | Microblaze/ACC.c:395-430 | a slot's six register words |
| Accelerator.UnpackPack | Microblaze/ACC.c:395-430 | the words written carry the operation exactly: decoding gives back the operand bytes and the mask, filter word 2 has its upper 24 bits clear, and the enable bit is set |
| Accelerator.WordsBytes | Microblaze/ACC.c:395-404 | nine bytes split into two little-endian words and a last byte come back whole |
| Accelerator.ControlWord | Microblaze/ACC.c:429 | the control word holds input byte 8 in bits 0-7 and the mask in bits 16-23, and bit 24 is set |
| Accelerator.Device.constructor | Microblaze/ACC.c:59-71 | a device with no operation started and the output offset at 0 |
| Accelerator.Device.Dispatch | Microblaze/ACC.c:369-431 | writes the packed words into the selected slot's six registers, keeps the other slot's, and starts exactly the operation those words encode |
| Accelerator.Device.ReadResults | Microblaze/ACC.c:437-443 | returns the answers to the next `numOps` started operations in start order, and moves the output offset by 4 bytes each |
| Accelerator.Device.Rewind | Microblaze/ACC.c:460 | the output offset returns to 0 and reading restarts at the next operation started |
| Accelerator.Answers | Microblaze/ACC.c:437-443 | the i-th word read is the answer to the (from + i)-th started operation |
| Accelerator.AnswersSplit | Microblaze/ACC.c:437-443 | reading in two calls gets the same words in the same order as reading in one |
| Accelerator.AnswersPrefix | Microblaze/ACC.c:437-443 | operations started later do not change the words already due |
| Reassembler.Init | Microblaze/ACC.c:77-99 | the reset state is consistent, with the cursor at 0, the arena empty and the audio not ready |
| Reassembler.HeaderSizeOf | Microblaze/ACC.c:159-185 | an accepted frame's header is 20 or 16 bytes and lies inside the frame |
| Reassembler.CopyLength | Microblaze/ACC.c:200-204 | the bytes copied never exceed the declared length or the bytes present, and equal one of the two |
| Reassembler.Data | Microblaze/ACC.c:200-208 | the payload copied has exactly the clamped length |
| Reassembler.RecordSlotAsWritten | Microblaze/ACC.c:169-174 | the table slot the code writes is the unchecked tensor id |
| Reassembler.RecordSlotOutOfBounds | Microblaze/ACC.c:169-174 | tensor id 18 arriving with `tensor_count` 0 is written at index 18 of the 18-entry tables |
| Reassembler.RecordSlot | Microblaze/ACC.c:169-174 | corrected: a slot is written exactly when the id and `tensor_count` are below 18, the slot is always inside the tables, and it agrees with the as-written code wherever that one stays inside |
| Reassembler.StartStream | Microblaze/ACC.c:169-177 | the first fragment rewinds the audio cursor for audio; for a model tensor, while the old `tensor_count` is below 18, `tensor_count` takes the id and an id below 18 records the tensor's offset and size; with `tensor_count` at 18 or more nothing is recorded; the expected fragment becomes 1 |
| Reassembler.Append | Microblaze/ACC.c:206-225 | model bytes are appended to the arena. Audio bytes are written at the audio cursor only if they fit; the rest of the buffer is kept, and the buffer is flagged ready exactly when it fills. Audio that does not fit changes nothing. |
| Reassembler.Step | Microblaze/ACC.c:136-226 | one frame: malformed frames are dropped silently with nothing changed, fragment 0 is always ACKed and restarts the cursor, an out-of-order fragment gets a NACK naming the expected index and changes nothing, and an in-order fragment is ACKed and advances the cursor modulo 2^32. The arena is append-only and gains exactly the clamped payload of an accepted model fragment. A first fragment's table bookkeeping is `StartStream`'s, with the corrected guard of Findings row 1. The state stays consistent. |
| Reassembler.FirstModelFragment | Microblaze/ACC.c:158-178 | the exact new state and ACK for the first fragment of a model tensor, in each of the three cases: id and `tensor_count` below 18, id of 18 or more with `tensor_count` below 18, and `tensor_count` at 18 or more |
| Reassembler.NextModelFragment | Microblaze/ACC.c:192-208 | the exact new state and ACK for a later in-order model fragment |
| Reassembler.NextAudioFragment | Microblaze/ACC.c:192-224 | the exact new state and ACK for a later in-order audio fragment that fits |
| Reassembler.AudioFragment | Microblaze/ACC.c:211-224 | an accepted audio fragment that fits lands at the cursor and advances it, and the buffer is ready exactly when full; one that overflows changes nothing |
| Reassembler.TransferSession.constructor | Microblaze/ACC.c:77-99 | the globals start as the reset state |
| Reassembler.TransferSession.CopyPayload | Microblaze/ACC.c:206-225 | the DRAM and audio-buffer copy changes the state as `Append` says |
| Reassembler.TransferSession.ProcessPacket | Microblaze/ACC.c:136-226 | the in-place update of the globals, tables and buffer, together with the acknowledgement returned, is exactly `Step`, including its corrected table guard (Findings row 1) |
| TensorCodec.SignedPatterns | Microblaze/ACC.c:341-344 | signed zero points survive the trip through their 32-bit patterns |
| TensorCodec.Encode | Microblaze/ACC.c:267-278 | a record's length is 24 bytes plus 4 per dimension, scale and zero point, plus the data |
| TensorCodec.HeaderWordsLayout | Microblaze/ACC.c:301-345 | each header field sits at the word the decoder reads it from |
| TensorCodec.Decode | Microblaze/ACC.c:301-353 | the decoded record ends where the data-length word says |
| TensorCodec.DecodeEncode | Microblaze/ACC.c:290-358 | decoding an encoded record gives back the tensor, wherever it sits and whatever follows it |
| TensorCodec.DecodeWindow | Microblaze/ACC.c:290-358 | the same for a memory known only to hold the record at the given offset |
| TensorCodec.ReadWords | Microblaze/ACC.c:311-330 | the pointer-walking loop collects the n words from the given offset |
| TensorCodec.ReadSignedWords | Microblaze/ACC.c:341-344 | the zero-point loop collects the n words as signed values |
| TensorCodec.LoadTensorFromDram | Microblaze/ACC.c:290-358 | NULL exactly for an index of 18 or more; otherwise the record at the table's offset, decoded |
| Sender.TotalFragments | PC_code/Input_weight.py:124-133 | at least one fragment, exactly one when the payload fits 1380 bytes, and the least count whose capacity covers the payload |
| Sender.TotalFragmentsFits | PC_code/Input_weight.py:124-133 | for a payload below 2^32 bytes the count fits a header word |
| Sender.FragmentBounds | PC_code/Input_weight.py:137-150 | every fragment's slice lies inside the payload, and is non-empty after fragment 0 |
| Sender.FragmentData | PC_code/Input_weight.py:137-150 | a fragment carries at most its capacity, and something when the payload is not empty |
| Sender.FragmentsAdjacent | PC_code/Input_weight.py:137-150 | consecutive slices are adjacent, every fragment but the last is full, and the last ends at the payload's end |
| Sender.AssembledPrefix | PC_code/Input_weight.py:137-150 | the first n fragments concatenated are the payload up to fragment n-1's end |
| Sender.FragmentsCoverPayload | PC_code/Input_weight.py:124-150 | all fragments concatenated are the payload |
| Sender.FirstAck | PC_code/Input_weight.py:99-108 | `sniff(..., lfilter=ack_filter, count=1)` returns the first frame of the window that is an ACK for this tensor, or nothing exactly when none is |
| Sender.WaitForAck | PC_code/Input_weight.py:98-117 | success exactly for a matching index with status 1; otherwise the receiver's index, or the same index on timeout |
| Sender.WaitForAckOf | PC_code/Input_weight.py:98-117 | whatever unrelated frames come first, the sender's verdict on a `send_ack` frame is success exactly when it ACKs the sent index, else the index it names |
| Sender.FirstAckSkips | PC_code/Input_weight.py:99-108 | frames that fail the filter are skipped |
| Sender.Resync | PC_code/Input_weight.py:165-176 | after a wait the cursor goes to the next fragment on success, else to the index the receiver reported |
| Sender.RunBounds | PC_code/Input_weight.py:135-176 | only indices below the total are sent, at most one per wait, and a run that stops short has used every window |
| Sender.AckWindows | PC_code/Input_weight.py:135-176 | one acknowledgement window per remaining fragment |
| Sender.Upto | PC_code/Input_weight.py:135-168 | the indices k .. total-1 in order |
| Sender.RunAllAcked | PC_code/Input_weight.py:135-176 | when each fragment is ACKed, the loop sends each fragment exactly once, in order, and ends at the total |
| Sender.RunResyncs | PC_code/Input_weight.py:165-176 | a NACK naming fragment e makes e the next one sent, and a silent window resends the same fragment |
| Sender.SendTensorFragments | PC_code/Input_weight.py:119-176 | the frames sent are, in order, the frames of the fragment indices the loop visits, and the final cursor is the loop's |
| Sender.SingleFrame | PC_code/Input_weight.py:247-257 | the single-frame packet equals the frame the fragmenting path would send as fragment 0 |
| Sender.Resends | PC_code/Input_weight.py:259-264 | corrected path: the number of sends is bounded by the number of waits |
| Sender.ResendsUntilAck | PC_code/Input_weight.py:259-264 | the send-and-wait loop sends once per window up to and including the first that ACKs fragment 0, and succeeds exactly when there is one |
| Sender.StaleAckSkipsSend | PC_code/Input_weight.py:258-264 | as written, an ACK for fragment 0 in the first window ends the path with nothing sent |
| Sender.FirstWaitWasted | PC_code/Input_weight.py:258-264 | as written, a first window without that ACK only costs a timeout before the loop starts |
| Sender.SendSingleFrame | PC_code/Input_weight.py:258-264 | the corrected method sends the single frame as often as `Resends` says and reports its verdict |
| Sender.SendSingleFrameAsWritten | PC_code/Input_weight.py:258-264 | the as-written method sends the single frame as often as the as-written path says |
| Sender.Chunk | PC_code/Input_weight.py:212-244 | `f.read(n)` returns at most n bytes |
| Sender.ReadWord | PC_code/Input_weight.py:212-237 | a 4-byte read is whole exactly when the word lies in the file, and then it reads that word and moves the cursor past it |
| Sender.ReadClamped | PC_code/Input_weight.py:212-239 | reads from a position clamped to the end of the file |
| Sender.ScanOf | PC_code/Input_weight.py:209-241 | the walk reaches end of file exactly when no id word remains; a block found has its header inside the file and spans at least 24 bytes |
| Sender.BlockSize | PC_code/Input_weight.py:241-242 | the block size is 24 + 4*(dims + scales + zero points) + data length, the same byte count `load_tensor_from_dram` consumes |
| Sender.ScanEncoded | PC_code/Input_weight.py:209-241 | an encoded record is found as one block with its own id, ending after its last data byte |
| Sender.SkipWords | PC_code/Input_weight.py:220-234 | n reads of 4 bytes move the cursor by 4n, stopping at the end of the file |
| Sender.ScanBlock | PC_code/Input_weight.py:209-241 | the cursor walk of one loop pass finds what `ScanOf` says |
| Sender.BlocksTurn | PC_code/Input_weight.py:208-245 | each turn of the loop appends the block found and continues from its end, and stops otherwise |
| Sender.TensorTurn | PC_code/Input_weight.py:208-245 | one loop turn as a method, with the same statement |
| Sender.TensorBlocks | PC_code/Input_weight.py:199-245 | the walk over the whole file lists exactly the blocks of `ListFile` |
| Sender.Payloads | PC_code/Input_weight.py:243-244 | one payload per block |
| Sender.ChainTail | PC_code/Input_weight.py:208-245 | a chain of blocks is its first block followed by a chain |
| Sender.BlocksOfChain | PC_code/Input_weight.py:208-245 | the walk lists a chain of blocks as it is, without an exception |
| Sender.RecordAt | PC_code/Input_weight.py:208-245 | the i-th of a run of encoded records is found as a block with its tensor's id |
| Sender.ChainOfRecords | PC_code/Input_weight.py:208-245 | records held end to end form a chain of blocks |
| Sender.PayloadsOfRuns | PC_code/Input_weight.py:243-244 | re-reading each block's span gives back each record |
| Sender.ListBinaryFile | PC_code/Input_weight.py:199-267 | over an exported weights file the walk hands over every tensor, in order, with exactly its own record as the bytes to send, and raises no exception |
| Transfer.FragmentFields | Microblaze/ACC.c:137-208 | every fragment frame the sender builds passes the firmware's checks, its header fields read back as packed, and the bytes copied are exactly the fragment's slice |
| Transfer.InOrderCarries | PC_code/Input_weight.py:135-158 | the sender's frames, in order, carry the whole payload |
| Transfer.LoadFirst | Microblaze/ACC.c:158-178 | the first fragment of a model tensor starts its stream and is ACKed |
| Transfer.LoadNext | Microblaze/ACC.c:192-208 | fragment n, arriving in order, is ACKed with index n and appended |
| Transfer.StepLoading | Microblaze/ACC.c:192-208 | fragment n of a model tensor, arriving while the cursor expects n, is ACKed, moves the cursor to n+1 and appends its slice |
| Transfer.LoadingCursor | Microblaze/ACC.c:177-196 | after the first n fragments the cursor expects fragment n |
| Transfer.LoadingNext | Microblaze/ACC.c:192-208 | the state after fragment n is the one before with the cursor moved on and the slice appended |
| Transfer.LoadPrefix | Microblaze/ACC.c:136-226 | after the first n fragments the state is `Loading` and every fragment was ACKed with its own index |
| Transfer.TraceFirst | Microblaze/ACC.c:158-178 | the first frame of a model-tensor trace starts the tensor and is ACKed as fragment 0 |
| Transfer.TraceNext | Microblaze/ACC.c:192-208 | frame n of such a trace appends fragment n and is ACKed with index n |
| Transfer.ModelTensorArrives | Microblaze/ACC.c:136-226 | a model tensor received whole and in order ends as exactly its payload appended to DRAM, with one ACK per fragment in order; while `tensor_count` was below 18 it takes the id and an id below 18 gets table entries pointing at the payload and holding its size, otherwise the tables are untouched |
| Transfer.AudioFirst | Microblaze/ACC.c:169-170 | the first audio fragment rewinds the audio cursor and writes at the front of the buffer |
| Transfer.AudioNext | Microblaze/ACC.c:211-221 | the next in-order audio slice is written just after those before it |
| Transfer.SpliceNext | Microblaze/ACC.c:213-214 | writing the next slice just past the written prefix leaves the longer prefix written |
| Transfer.AudioPrefix | Microblaze/ACC.c:136-226 | after the first n audio fragments the state is `AudioLoading`, with every fragment ACKed |
| Transfer.AudioTraceFirst | Microblaze/ACC.c:169-170 | the first frame of an audio trace writes at the front of the buffer and is ACKed |
| Transfer.AudioTraceNext | Microblaze/ACC.c:211-221 | frame n of an audio trace writes fragment n just past the earlier ones and is ACKed |
| Transfer.AudioArrives | Microblaze/ACC.c:211-224 | the whole audio input lands at the front of the buffer with the cursor at its length, is ready exactly when already ready or full, leaves DRAM and the tables untouched, and every fragment is ACKed |
| Transfer.FullAudioArrives | Microblaze/ACC.c:217-221 | a full 124 x 129 input fills the buffer exactly and sets `audio_ready` |
| Transfer.AnswerWindows | PC_code/Input_weight.py:108 | each wait sees exactly the firmware's answer to the frame just sent, or nothing |
| Transfer.ClosedLoop | PC_code/Input_weight.py:135-176 | fed the firmware's own answers, the sender's loop sends every fragment exactly once, in order, and finishes, both for a model tensor and for the audio input (tensor 99) of at most 124 x 129 bytes |
| Transfer.RecordArrives | Microblaze/ACC.c:290-358 | a tensor record sent whole while `tensor_count` is below 18 is found in DRAM at its table entry and decodes back to the tensor |
| Transfer.DecodeAppended | Microblaze/ACC.c:206-208 | a record appended to the arena decodes back from where it starts |
| Layers.Clamp | Microblaze/ACC.c:503-504 | the stored value is in 0..127, equal to the input inside that range, and saturated outside it |
| Layers.Requantize | Microblaze/ACC.c:500-506 | every stored activation is in 0..127 |
| Layers.RunPair | Microblaze/ACC.c:478-495 | two operations queued in slots 0 and 1 then read back give their two answers in start order |
| Conv1Layer.Patch | Microblaze/ACC.c:466-472 | a window has nine taps; which bytes they are, (oh+r)*width + ow+c for r, c in 0..2, is stated by Conv1Layer.ExtractPatch about the extraction loops |
| Conv1Layer.PixelOps | Microblaze/ACC.c:475-490 | definition of a pixel's 32 operations in filter order; their entries are stated by Conv1Layer.Conv1OpsAt |
| Conv1Layer.PixelValues | Microblaze/ACC.c:498-506 | definition of a pixel's 32 activations in filter order; their entries are stated by Conv1Layer.Conv1ValuesAt |
| Conv1Layer.Conv1OpsAt | Microblaze/ACC.c:463-490 | operation (h*127+w)*32+f is filter f on window (h, w), in slot f mod 2 with PE mask 1 << (f mod 8) |
| Conv1Layer.Conv1OpsLength | Microblaze/ACC.c:463-490 | 32 operations per pixel |
| Conv1Layer.Conv1ValuesAt | Microblaze/ACC.c:498-506 | output (h*127+w)*32+f is filter f's answer plus bias f, wrapped to 32 bits, rescaled with scale f, plus the zero point, clamped |
| Conv1Layer.Conv1ValuesLength | Microblaze/ACC.c:498-506 | 32 activations per pixel |
| Conv1Layer.ExtractPatch | Microblaze/ACC.c:466-472 | the patch-extraction loops build exactly the window |
| Conv1Layer.StorePair | Microblaze/ACC.c:498-506 | the two requantized answers land at their indices, and nothing else changes |
| Conv1Layer.Conv1Pair | Microblaze/ACC.c:476-507 | one filter pair starts its two operations in order and stores their two activations, and nothing else changes |
| Conv1Layer.Conv1Pixel | Microblaze/ACC.c:475-507 | a pixel starts its 32 operations in order and stores its 32 activations |
| Conv1Layer.Conv1Step | Microblaze/ACC.c:463-508 | the operations and activations grow from conv1's first p pixels to its first p+1, and later outputs are kept |
| Conv1Layer.Conv1 | Microblaze/ACC.c:454-511 | the operations started are exactly conv1's, the first 122*127*32 outputs are exactly its activations, and nothing past them is written |
| Conv2Layer.TapIndex | Microblaze/ACC.c:552-553 | every channel-last tap index lies inside the input |
| Conv2Layer.Patch | Microblaze/ACC.c:547-555 | a channel's window has nine taps; which bytes they are, ((oh+r)*width + ow+c)*32 + ch, is stated by Conv2Layer.ExtractPatch about the extraction loops |
| Conv2Layer.ChannelOps | Microblaze/ACC.c:557-575 | definition of one channel's 64 operations in filter order; their entries are stated by Conv2Layer.PixelOpsAt and Conv2Layer.Conv2OpsAt |
| Conv2Layer.PixelValues | Microblaze/ACC.c:587-594 | definition of a pixel's 64 activations in filter order; their entries are stated by Conv2Layer.Conv2ValuesAt |
| Conv2Layer.PixelOpsAt | Microblaze/ACC.c:545-575 | within a pixel, operation ch*64+f is filter f on channel ch's window |
| Conv2Layer.Conv2OpsLength | Microblaze/ACC.c:536-575 | 2048 operations per pixel |
| Conv2Layer.Conv2OpsAt | Microblaze/ACC.c:536-575 | operation ((h*125+w)*32+ch)*64+f is channel ch's nine weights of filter f (at f*288 + ch*9) on channel ch's window, in slot f mod 2 with mask 1 << (f mod 8) |
| Conv2Layer.Conv2ValuesLength | Microblaze/ACC.c:587-594 | 64 activations per pixel |
| Conv2Layer.Conv2ValuesAt | Microblaze/ACC.c:540-594 | output (h*125+w)*64+f is filter f's answers summed over the 32 channels, plus bias f, wrapped, rescaled with scale f and clamped into 0..127 |
| Conv2Layer.ExtractPatch | Microblaze/ACC.c:547-555 | the extraction loops build exactly channel ch's window |
| Conv2Layer.Conv2Pair | Microblaze/ACC.c:557-578 | one filter pair starts its two operations and returns their answers |
| Conv2Layer.ChannelAnswers | Microblaze/ACC.c:577-583 | definition of the answers to a channel's 64 operations, by filter; how the loop adds them is stated by Conv2Layer.Conv2Channel and Conv2Layer.AddedPair |
| Conv2Layer.AddedPair | Microblaze/ACC.c:580-583 | adding a pair's two answers extends the accumulated filters by two |
| Conv2Layer.Conv2Channel | Microblaze/ACC.c:557-583 | each filter's accumulator gains its answer for this channel, wrapped to 32 bits, and the channel's 64 operations are started in order |
| Conv2Layer.ChannelPair | Microblaze/ACC.c:557-583 | one pass of the filter-pair loop extends the operations and the accumulated filters by two |
| Conv2Layer.StoreFilters | Microblaze/ACC.c:587-595 | each filter's accumulator plus bias, wrapped and requantized, lands at its index, and nothing else changes |
| Conv2Layer.ChannelSumNext | Microblaze/ACC.c:580-583 | adding channel n's answer to the wrapped sum of the first n channels gives the wrapped sum of the first n+1 |
| Conv2Layer.Accumulated | Microblaze/ACC.c:540-585 | 64 accumulators; that they are each filter's answers summed over the channels in 32-bit arithmetic is stated by Conv2Layer.AccumulatePixel |
| Conv2Layer.AccumulateChannel | Microblaze/ACC.c:545-585 | one channel pass grows the operations and the accumulators from ch channels to ch+1 |
| Conv2Layer.AccumulatePixel | Microblaze/ACC.c:540-585 | the accumulators start at 0 and end as every filter's answers summed over the 32 channels, in 32-bit arithmetic |
| Conv2Layer.Conv2Pixel | Microblaze/ACC.c:540-595 | a pixel starts its 2048 operations in order and stores its 64 activations, and nothing else changes |
| Conv2Layer.Conv2Step | Microblaze/ACC.c:536-596 | the operations and activations grow from conv2's first p pixels to its first p+1 |
| Conv2Layer.Conv2 | Microblaze/ACC.c:529-598 | without a rewind, the operations are appended after those already started, the first 120*125*64 outputs are exactly conv2's activations, and nothing past them is written |
| MaxPool.Conv2Pooling | Microblaze/ACC.c:929-945 | the pooling after conv2 is valid and gives 60 x 62 x 64 = 238080 outputs |
| MaxPool.Index | Microblaze/ACC.c:613 | a channel-last index lies inside the tensor |
| MaxPool.WindowInside | Microblaze/ACC.c:603-612 | every tap of every output window lies inside the input |
| MaxPool.RowTaps | Microblaze/ACC.c:610-614 | definition of a window row's taps, left to right; that they lie inside the input is stated by MaxPool.WindowInside, and what is taken from them by MaxPool.PoolValueIsMax |
| MaxPool.WindowRows | Microblaze/ACC.c:609-614 | definition of the window's rows, top to bottom; their maximum is stated by MaxPool.RowsMaxIsMax and MaxPool.PoolValueIsMax |
| MaxPool.PixelPool | Microblaze/ACC.c:607-621 | definition of one pooled value per channel; each is a window maximum by MaxPool.PoolOutputAt and MaxPool.PoolValueIsMax |
| MaxPool.MaxFromSnoc | Microblaze/ACC.c:615-617 | one more value replaces the running maximum only when strictly larger |
| MaxPool.MaxFromIsMax | Microblaze/ACC.c:608-618 | the running maximum is at least the start and every value, and is the start or one of the values |
| MaxPool.RowsMaxIsMax | Microblaze/ACC.c:608-618 | the same over whole rows starting from -128 |
| MaxPool.PoolValueIsMax | Microblaze/ACC.c:608-621 | each output is at least every value of its window, equals one of them when the window is not empty, and is -128 for an empty window |
| MaxPool.PoolOutputLength | Microblaze/ACC.c:605-621 | one value per channel per output position |
| MaxPool.PoolOutputEntry | Microblaze/ACC.c:620-621 | the entry at the channel-last index of (oh, ow, ch) is that window's maximum |
| MaxPool.PoolOutputAt | Microblaze/ACC.c:603-621 | the output has OutputSize() entries, and entry ((oh*W)+ow)*C+ch is the window maximum |
| MaxPool.RowMax | Microblaze/ACC.c:610-617 | the inner loop continues the running maximum over the row's taps |
| MaxPool.WindowMax | Microblaze/ACC.c:608-618 | the window loops compute the window maximum from -128 |
| MaxPool.PoolPixel | Microblaze/ACC.c:607-621 | each channel's maximum lands at its index, and nothing else changes |
| MaxPool.PoolStep | Microblaze/ACC.c:606-622 | the stored output grows by one output position |
| MaxPool.PoolRow | Microblaze/ACC.c:605-623 | the stored output grows by one output row |
| MaxPool.MaxPool2d | Microblaze/ACC.c:601-625 | the first OutputSize() entries are the window maxima of every position and channel in row-major, channel-last order, and nothing past them is written |
| FullyConnected.Padded | Microblaze/ACC.c:666-673 | the partial block keeps its values and is zero-filled to nine |
| FullyConnected.Responses | Microblaze/ACC.c:658-679 | definition of the answers to the operations, in order; that the words read are these is stated by FullyConnected.ResponsesExtend |
| FullyConnected.FcValues | Microblaze/ACC.c:637-690 | one activation per neuron; that activation m is neuron m's requantized wrapped sum is stated by FullyConnected.FcValuesNext and FullyConnected.Neuron |
| FullyConnected.FcValuesNext | Microblaze/ACC.c:637-690 | the first n+1 activations are the first n followed by neuron n's |
| FullyConnected.NeuronOpsShape | Microblaze/ACC.c:634-680 | a neuron starts ceil(length/9) operations: full block b in slot b mod 2 with mask 1 << (m mod 8), and the partial block in slot 0 with mask 0x01 |
| FullyConnected.BlockOpLanes | Microblaze/ACC.c:645-655 | input i and weight m*length+i go to lane i mod 9 of full block i/9 |
| FullyConnected.RemainderOpLanes | Microblaze/ACC.c:665-676 | the same for the partial block |
| FullyConnected.NeuronOpsLanes | Microblaze/ACC.c:641-680 | the operations together cover the whole dot product, lane by lane |
| FullyConnected.NeuronOpsPadding | Microblaze/ACC.c:668-673 | the partial block's lanes past its values are zero in the input and the weights |
| FullyConnected.WrappedSumIsSum | Microblaze/ACC.c:659-661 | accumulating with a wrap at every step equals the true sum wrapped once |
| FullyConnected.WrappedSumNext | Microblaze/ACC.c:659-661 | answer k added to the wrapped sum of those before it |
| FullyConnected.TwentyInputs | Microblaze/ACC.c:641-680 | a 20-element input for neuron 9 runs two full blocks in slots 0 and 1 with mask 2, then the last two values padded with seven zeros in slot 0 with mask 1 |
| FullyConnected.NeuronOpsAt | Microblaze/ACC.c:641-680 | the entries of the neuron's operations |
| FullyConnected.StartBlock | Microblaze/ACC.c:645-656 | starts exactly full block b's operation |
| FullyConnected.StartRemainder | Microblaze/ACC.c:665-676 | starts exactly the padded partial block's operation |
| FullyConnected.AddAnswers | Microblaze/ACC.c:659-661 | the accumulation loop extends the wrapped sum by the words read |
| FullyConnected.ResponsesExtend | Microblaze/ACC.c:658-661 | the words read next are the answers to the next operations |
| FullyConnected.BlockPair | Microblaze/ACC.c:641-662 | one pass starts one or two full blocks and adds their answers to the wrapped sum |
| FullyConnected.FullBlocks | Microblaze/ACC.c:641-662 | the block loop starts every full block in order and ends with the wrapped sum of their answers |
| FullyConnected.NeuronSum | Microblaze/ACC.c:639-680 | the accumulator ends as the wrapped sum of the answers to all of the neuron's operations |
| FullyConnected.Neuron | Microblaze/ACC.c:638-689 | the neuron's operations are started and its activation is its wrapped sum plus bias, rescaled with weight scale 0, plus the zero point, clamped |
| FullyConnected.FcStep | Microblaze/ACC.c:637-689 | neuron m's operations follow the earlier neurons', its activation is stored after theirs, and later entries are kept |
| FullyConnected.FullyConnectedLayer | Microblaze/ACC.c:627-690 | every neuron's operations are started in neuron order, the first `num_outputs` entries are the activations, and nothing past them is written |

## Left out

- I/O is not modelled: the EmacLite driver, `sendp`/`sniff`, sleeps, the UART prints, the seven-segment display and the buttons. Each `sniff` window is a parameter, a sequence of frames. Received frames are given as byte sequences.
- Floating point is not modelled. The rescale `(int32_t)round(multiplier * mac)` is a parameter `round(scaleIndex, mac)`. Scales stay their raw Q16 words, not `fixed / 65536`. Softmax, argmax and dequantisation are left out.
- `main`, the inference orchestration, `print_tensor_data`, `free_tensor`, the FPGA-to-PC request frames (0x88B6), audio capture and preprocessing are outside this model. The stick-figure application is not part of this model either.
- TensorCodec.LoadTensorFromDram: `malloc` failure is not modelled, so the NULL results at Microblaze/ACC.c:297-352 are not produced.
- TensorCodec.LoadTensorFromDram requires the record to lie inside the arena. The firmware does not check this and reads whatever DRAM holds.
- Conv1Layer.Conv1Pair and Conv2Layer.Conv2Pair do not model the `num_ops == 1` branches (Microblaze/ACC.c:476, 558). The filter counts 32 and 64 are even, so these branches never run. FC's odd-block branch does run and is modelled.
- Signed overflow in `int` accumulators is undefined in C. It is modelled as two's-complement wrap-around (`AsInt32`), which is what the MicroBlaze compiler produces.
- The accelerator's output region is modelled as unbounded. Conv2 and FC never rewind `acc_output_offset`, so their reads run far past `ACC_OUTPUT_ADDR`; whether the hardware's region is that large is not modelled.
- Accelerator.Device.Rewind also clears the log of started operations. This assumes the accelerator writes the next result at the start of its output region once the offset is reset.
- Conv1 and conv2 accumulators are sequence values, not C stack arrays.
- Hardware timing is not modelled (`DELAY_COUNT`, the gap between a control-word write and its result being readable).
- Sender.SendTensorFragments, Sender.SendSingleFrame and Sender.SendSingleFrameAsWritten: when the given waits run out, the loop stops (for the single-frame path, with `acked` false). The Python loops (PC_code/Input_weight.py:135-176, 259-264) have no such bound and resend forever until the receiver answers.
- Transfer.ClosedLoop covers the audio input only when it fits the 124 x 129-byte buffer, which the PC's spectrogram does. A longer audio input is still acknowledged fragment by fragment, but that case is not stated.
- Reassembler.StartStream, Reassembler.Step and Reassembler.TransferSession.ProcessPacket use the corrected table guard of Findings row 1. A first model fragment with an id of 18 or more, while `tensor_count` is below 18, sets `tensor_count` to the id as Microblaze/ACC.c:172 does, but the write past the end of `tensor_offsets` and `tensor_sizes` (Microblaze/ACC.c:173-174) is not modelled: it is undefined behaviour in C. The main loop's stop test on `tensor_count` (Microblaze/ACC.c:734) is outside this model.
- Two 32-bit limits are not modelled, and neither is reachable with this network's tensors. The firmware's `current_offset` and `tensor_offsets[]` are `unsigned int` (Microblaze/ACC.c:91, 94) and would wrap past 4 GiB; the model's DRAM cursor is the unbounded length of the arena. The sender's `struct.pack("<IIIII", …)` raises `struct.error` for a payload of 2^32 bytes or more (PC_code/Input_weight.py:139-157, 249-255); Sender.SendTensorFragments, Sender.FragmentFrame and the fragmentation functions require a shorter payload instead of modelling that exception.
- MaxPool.MaxPool2d requires a stride of at least 1 and a window no larger than the input. Stride 0 divides by zero, and a larger window gives a negative `output_height` that C division truncates.

## Findings

| source | as written | input that shows it | evidently intended | confidence | as-written member | corrected member |
|---|---|---|---|---|---|---|
| Microblaze/ACC.c:169-174 | the bound test is on the previous `tensor_count`, then `tensor_count = tensor_id` indexes the 18-entry tables unchecked | a first fragment with tensor id 18 while `tensor_count` is 0 writes `tensor_offsets[18]` and `tensor_sizes[18]` | write the tables only for an id below 18 | high, not executed | Reassembler.RecordSlotAsWritten, Reassembler.RecordSlotOutOfBounds | Reassembler.RecordSlot |
| PC_code/Input_weight.py:258-264 | the single-frame path waits for an ACK before it has sent anything | an ACK for fragment 0 of the same tensor id (a late answer to an earlier send) in the first window: the tensor is counted as sent, with no frame sent | send, then wait, until acknowledged | low, not executed | Sender.SendSingleFrameAsWritten, Sender.StaleAckSkipsSend | Sender.SendSingleFrame, Sender.ResendsUntilAck |
