/**
  The tensor record stored in the DRAM arena and its decoder
  `load_tensor_from_dram` (Microblaze/ACC.c:267-358). A record is a run of
  little-endian words:

    tensor_id | num_dims | dims | data_type | num_scales | scales |
    num_zero_points | zero_points | data_length | data

  Scales travel as Q16 fixed-point words; the division by 65536 into a float
  is not modelled, so a decoded scale is the raw word.
*/
module TensorCodec {
  import opened Bytes
  import opened Wire
  import opened Wrappers

  /** The `Tensor` struct, with its arrays as sequences. */
  datatype Tensor = Tensor(
    id: U32,
    dims: seq<U32>,
    dataType: U32,
    scales: seq<U32>,
    zeroPoints: seq<Int32>,
    data: seq<Byte>)

  /** Every count of a tensor fits its 32-bit length field. */
  predicate Encodable(t: Tensor) {
    && |t.dims| < 0x1_0000_0000 && |t.scales| < 0x1_0000_0000
    && |t.zeroPoints| < 0x1_0000_0000 && |t.data| < 0x1_0000_0000
  }

  /** The number of bytes a record with these counts occupies. */
  function RecordSize(numDims: nat, numScales: nat, numZeroPoints: nat, dataLength: nat): nat {
    24 + 4 * (numDims + numScales + numZeroPoints) + dataLength
  }

  /** Signed zero points as their 32-bit patterns, and back. */
  function Patterns(zs: seq<Int32>): (ws: seq<U32>)
    ensures |ws| == |zs|
  {
    if zs == [] then [] else Patterns(zs[..|zs| - 1]) + [ToU32(zs[|zs| - 1])]
  }

  function Signed(ws: seq<U32>): (zs: seq<Int32>)
    ensures |zs| == |ws|
  {
    if ws == [] then [] else Signed(ws[..|ws| - 1]) + [AsInt32(ws[|ws| - 1])]
  }

  lemma {:induction false} SignedPatterns(zs: seq<Int32>)
    ensures Signed(Patterns(zs)) == zs
  {
    if zs != [] {
      var init := zs[..|zs| - 1];
      SignedPatterns(init);
      assert Patterns(zs)[..|zs| - 1] == Patterns(init);
      AsInt32ToU32(zs[|zs| - 1]);
    }
  }

  /** Every word of a record before its data bytes, in order. */
  function HeaderWords(t: Tensor): (ws: seq<U32>)
    requires Encodable(t)
    ensures |ws| == 6 + |t.dims| + |t.scales| + |t.zeroPoints|
  {
    [t.id, |t.dims|] + t.dims + [t.dataType, |t.scales|] + t.scales
    + [|t.zeroPoints|] + Patterns(t.zeroPoints) + [|t.data|]
  }

  /** The record as the model-parameter file stores it and the PC sends it. */
  function Encode(t: Tensor): (r: seq<Byte>)
    requires Encodable(t)
    ensures |r| == RecordSize(|t.dims|, |t.scales|, |t.zeroPoints|, |t.data|)
  {
    PutU32s(HeaderWords(t)) + t.data
  }

  /** `ws` holds, word by word, the header fields of `t`. */
  predicate Describes(ws: seq<U32>, t: Tensor) {
    var nd, ns, nz := |t.dims|, |t.scales|, |t.zeroPoints|;
    && |ws| == 6 + nd + ns + nz
    && ws[0] == t.id && ws[1] == nd && ws[2..2 + nd] == t.dims
    && ws[2 + nd] == t.dataType && ws[3 + nd] == ns && ws[4 + nd..4 + nd + ns] == t.scales
    && ws[4 + nd + ns] == nz && ws[5 + nd + ns..5 + nd + ns + nz] == Patterns(t.zeroPoints)
    && ws[5 + nd + ns + nz] == |t.data|
  }

  /** Where each field sits among the header words. */
  lemma HeaderWordsLayout(t: Tensor)
    requires Encodable(t)
    ensures Describes(HeaderWords(t), t)
  {
    var nd, ns, nz := |t.dims|, |t.scales|, |t.zeroPoints|;
    var a := [t.id, |t.dims|] + t.dims;
    var b := a + [t.dataType, |t.scales|] + t.scales;
    var c := b + [|t.zeroPoints|] + Patterns(t.zeroPoints);
    assert HeaderWords(t) == c + [|t.data|];
    assert c[..|b|] == b && b[..|a|] == a;
    assert a[2..] == t.dims;
    assert b[4 + nd..] == t.scales;
    assert c[5 + nd + ns..] == Patterns(t.zeroPoints);
  }

  // Offsets of the variable-length sections of a record starting at `at`.

  function ScalesAt(mem: seq<Byte>, at: nat): nat
    requires at + 8 <= |mem|
  {
    at + 8 + 4 * GetU32(mem, at + 4)
  }

  function ZeroPointsAt(mem: seq<Byte>, at: nat): nat
    requires at + 8 <= |mem| && ScalesAt(mem, at) + 8 <= |mem|
  {
    var p := ScalesAt(mem, at);
    p + 8 + 4 * GetU32(mem, p + 4)
  }

  function DataLengthAt(mem: seq<Byte>, at: nat): nat
    requires at + 8 <= |mem| && ScalesAt(mem, at) + 8 <= |mem|
    requires ZeroPointsAt(mem, at) + 4 <= |mem|
  {
    var p := ZeroPointsAt(mem, at);
    p + 4 + 4 * GetU32(mem, p)
  }

  /** The whole record starting at `at` lies inside `mem`. The firmware does
      not check this: its callers only ask for tensors they have received. */
  predicate RecordWithin(mem: seq<Byte>, at: nat) {
    && at + 8 <= |mem|
    && ScalesAt(mem, at) + 8 <= |mem|
    && ZeroPointsAt(mem, at) + 4 <= |mem|
    && DataLengthAt(mem, at) + 4 <= |mem|
    && DataLengthAt(mem, at) + 4 + GetU32(mem, DataLengthAt(mem, at)) <= |mem|
  }

  /** The record at `at`, field by field in the fixed order. */
  function Decode(mem: seq<Byte>, at: nat): (t: Tensor)
    requires RecordWithin(mem, at)
    ensures RecordSize(|t.dims|, |t.scales|, |t.zeroPoints|, |t.data|) + at
            == DataLengthAt(mem, at) + 4 + GetU32(mem, DataLengthAt(mem, at))
  {
    var p1, p2, p3 := ScalesAt(mem, at), ZeroPointsAt(mem, at), DataLengthAt(mem, at);
    Tensor(GetU32(mem, at),
           GetU32s(mem, at + 8, GetU32(mem, at + 4)),
           GetU32(mem, p1),
           GetU32s(mem, p1 + 8, GetU32(mem, p1 + 4)),
           Signed(GetU32s(mem, p2 + 4, GetU32(mem, p2))),
           mem[p3 + 4..p3 + 4 + GetU32(mem, p3)])
  }

  /** Decoding an encoded record recovers the tensor, wherever it sits in
      memory and whatever follows it. */
  lemma {:induction false} DecodeEncode(prefix: seq<Byte>, t: Tensor, suffix: seq<Byte>)
    requires Encodable(t)
    ensures RecordWithin(prefix + Encode(t) + suffix, |prefix|)
    ensures Decode(prefix + Encode(t) + suffix, |prefix|) == t
  {
    var mem := prefix + Encode(t) + suffix;
    assert mem[|prefix|..|prefix| + |Encode(t)|] == Encode(t);
    DecodeWindow(mem, |prefix|, t);
  }

  /** The same, for a memory known only to hold the encoded record at `at`:
      the form in which the firmware's arena is reasoned about. */
  lemma {:induction false} DecodeWindow(mem: seq<Byte>, at: nat, t: Tensor)
    requires Encodable(t)
    requires at + |Encode(t)| <= |mem| && mem[at..at + |Encode(t)|] == Encode(t)
    ensures RecordWithin(mem, at) && Decode(mem, at) == t
  {
    var ws := HeaderWords(t);
    WordsWindow(mem, at, ws, t.data);
    HeaderWordsLayout(t);
    WordsHoldFields(mem, at, t, ws);
    DecodeHeld(mem, at, t);
  }

  /** A run of packed words followed by raw bytes, found at `at`, reads
      back as those words and those bytes. */
  lemma {:induction false} WordsWindow(mem: seq<Byte>, at: nat, ws: seq<U32>, data: seq<Byte>)
    requires at + 4 * |ws| + |data| <= |mem|
    requires mem[at..at + 4 * |ws| + |data|] == PutU32s(ws) + data
    ensures forall i | 0 <= i < |ws| :: GetU32(mem, at + 4 * i) == ws[i]
    ensures mem[at + 4 * |ws|..at + 4 * |ws| + |data|] == data
  {
    var w := PutU32s(ws) + data;
    assert [] + PutU32s(ws) + data == w;
    forall i | 0 <= i < |ws|
      ensures GetU32(mem, at + 4 * i) == ws[i]
    {
      GetPutU32sAt(ws, i, [], data);
      GetU32Window(mem, at, w, 4 * i);
    }
    assert mem[at + 4 * |ws|..at + 4 * |ws| + |data|] == w[4 * |ws|..];
  }

  /** A stretch of a word run that reads as `ws` reads as its slice. */
  lemma {:induction false} WordsOf(mem: seq<Byte>, at: nat, ws: seq<U32>, k: nat, xs: seq<U32>)
    requires at + 4 * |ws| <= |mem|
    requires forall i | 0 <= i < |ws| :: GetU32(mem, at + 4 * i) == ws[i]
    requires k + |xs| <= |ws| && ws[k..k + |xs|] == xs
    ensures GetU32s(mem, at + 4 * k, |xs|) == xs
  {
    forall j | 0 <= j < |xs|
      ensures GetU32(mem, at + 4 * k + 4 * j) == xs[j]
    {
      assert xs[j] == ws[k + j];
      assert at + 4 * k + 4 * j == at + 4 * (k + j);
    }
    ReadsAs(mem, at + 4 * k, xs);
  }

  /** Each field of `t`, read where a decoder walking the record from `at`
      finds it, has the value `t` gives it. */
  predicate Holds(mem: seq<Byte>, at: nat, t: Tensor) {
    CountsHold(mem, at, t) && DimsHold(mem, at, t) && ScalesHold(mem, at, t)
    && ZeroPointsHold(mem, at, t) && DataHolds(mem, at, t)
  }

  /** Offsets of the dims, scales, zero points and data-length words. */
  function Offsets(at: nat, t: Tensor): (nat, nat, nat) {
    var nd, ns, nz := |t.dims|, |t.scales|, |t.zeroPoints|;
    (at + 8 + 4 * nd, at + 16 + 4 * (nd + ns), at + 20 + 4 * (nd + ns + nz))
  }

  predicate CountsHold(mem: seq<Byte>, at: nat, t: Tensor) {
    var (p1, p2, p3) := Offsets(at, t);
    && p3 + 4 <= |mem|
    && GetU32(mem, at) == t.id && GetU32(mem, at + 4) == |t.dims|
    && GetU32(mem, p1) == t.dataType && GetU32(mem, p1 + 4) == |t.scales|
    && GetU32(mem, p2) == |t.zeroPoints| && GetU32(mem, p3) == |t.data|
  }

  predicate DimsHold(mem: seq<Byte>, at: nat, t: Tensor) {
    at + 8 + 4 * |t.dims| <= |mem| && GetU32s(mem, at + 8, |t.dims|) == t.dims
  }

  predicate ScalesHold(mem: seq<Byte>, at: nat, t: Tensor) {
    var p1 := Offsets(at, t).0;
    p1 + 8 + 4 * |t.scales| <= |mem| && GetU32s(mem, p1 + 8, |t.scales|) == t.scales
  }

  predicate ZeroPointsHold(mem: seq<Byte>, at: nat, t: Tensor) {
    var p2 := Offsets(at, t).1;
    p2 + 4 + 4 * |t.zeroPoints| <= |mem| && GetU32s(mem, p2 + 4, |t.zeroPoints|) == Patterns(t.zeroPoints)
  }

  predicate DataHolds(mem: seq<Byte>, at: nat, t: Tensor) {
    var p3 := Offsets(at, t).2;
    p3 + 4 + |t.data| <= |mem| && mem[p3 + 4..p3 + 4 + |t.data|] == t.data
  }

  /** Header words in place, followed by the data, hold every field. */
  lemma WordsHoldFields(mem: seq<Byte>, at: nat, t: Tensor, ws: seq<U32>)
    requires Encodable(t)
    requires Describes(ws, t)
    requires at + 4 * |ws| + |t.data| <= |mem|
    requires forall i | 0 <= i < |ws| :: GetU32(mem, at + 4 * i) == ws[i]
    requires mem[at + 4 * |ws|..at + 4 * |ws| + |t.data|] == t.data
    ensures Holds(mem, at, t)
  {
    WordsHoldCounts(mem, at, t, ws);
    WordsOf(mem, at, ws, 2, t.dims);
    WordsHoldScales(mem, at, t, ws);
    WordsHoldZeroPoints(mem, at, t, ws);
  }

  lemma WordsHoldCounts(mem: seq<Byte>, at: nat, t: Tensor, ws: seq<U32>)
    requires Encodable(t)
    requires Describes(ws, t)
    requires at + 4 * |ws| <= |mem|
    requires forall i | 0 <= i < |ws| :: GetU32(mem, at + 4 * i) == ws[i]
    ensures CountsHold(mem, at, t)
  {
    var nd, ns, nz := |t.dims|, |t.scales|, |t.zeroPoints|;
    var (p1, p2, p3) := Offsets(at, t);
    assert GetU32(mem, at + 4 * 0) == ws[0];
    assert GetU32(mem, at + 4 * 1) == ws[1];
    assert p1 == at + 4 * (2 + nd) && GetU32(mem, at + 4 * (2 + nd)) == ws[2 + nd];
    assert p1 + 4 == at + 4 * (3 + nd) && GetU32(mem, at + 4 * (3 + nd)) == ws[3 + nd];
    assert p2 == at + 4 * (4 + nd + ns) && GetU32(mem, at + 4 * (4 + nd + ns)) == ws[4 + nd + ns];
    assert p3 == at + 4 * (5 + nd + ns + nz) && GetU32(mem, at + 4 * (5 + nd + ns + nz)) == ws[5 + nd + ns + nz];
  }

  lemma WordsHoldScales(mem: seq<Byte>, at: nat, t: Tensor, ws: seq<U32>)
    requires Encodable(t)
    requires Describes(ws, t)
    requires at + 4 * |ws| <= |mem|
    requires forall i | 0 <= i < |ws| :: GetU32(mem, at + 4 * i) == ws[i]
    ensures ScalesHold(mem, at, t)
  {
    WordsOf(mem, at, ws, 4 + |t.dims|, t.scales);
  }

  lemma WordsHoldZeroPoints(mem: seq<Byte>, at: nat, t: Tensor, ws: seq<U32>)
    requires Encodable(t)
    requires Describes(ws, t)
    requires at + 4 * |ws| <= |mem|
    requires forall i | 0 <= i < |ws| :: GetU32(mem, at + 4 * i) == ws[i]
    ensures ZeroPointsHold(mem, at, t)
  {
    WordsOf(mem, at, ws, 5 + |t.dims| + |t.scales|, Patterns(t.zeroPoints));
  }

  /** A record whose fields all hold decodes to the tensor. */
  lemma DecodeHeld(mem: seq<Byte>, at: nat, t: Tensor)
    requires Holds(mem, at, t)
    ensures RecordWithin(mem, at) && Decode(mem, at) == t
  {
    var (p1, p2, p3) := Offsets(at, t);
    DecodeLayout(mem, at, t, p1, p2, p3);
    DecodedSections(mem, at, t);
    DecodedZeroPoints(mem, at, t);
  }

  /** The decoder finds the sections where `Offsets` puts them. */
  predicate LaidOut(mem: seq<Byte>, at: nat, t: Tensor) {
    && RecordWithin(mem, at)
    && ScalesAt(mem, at) == Offsets(at, t).0
    && ZeroPointsAt(mem, at) == Offsets(at, t).1
    && DataLengthAt(mem, at) == Offsets(at, t).2
  }

  /** Dims, scales and data decode to those of the tensor. */
  lemma DecodedSections(mem: seq<Byte>, at: nat, t: Tensor)
    requires Holds(mem, at, t) && LaidOut(mem, at, t)
    ensures Decode(mem, at).dims == t.dims && Decode(mem, at).scales == t.scales
    ensures Decode(mem, at).data == t.data
  {
  }

  /** The zero points decode, as signed values, to those of the tensor. */
  lemma DecodedZeroPoints(mem: seq<Byte>, at: nat, t: Tensor)
    requires Holds(mem, at, t) && LaidOut(mem, at, t)
    ensures Decode(mem, at).zeroPoints == t.zeroPoints
  {
    var p2 := Offsets(at, t).1;
    calc {
      Decode(mem, at).zeroPoints;
      Signed(GetU32s(mem, p2 + 4, GetU32(mem, p2)));
      { assert GetU32(mem, p2) == |t.zeroPoints|; }
      Signed(GetU32s(mem, p2 + 4, |t.zeroPoints|));
      { assert GetU32s(mem, p2 + 4, |t.zeroPoints|) == Patterns(t.zeroPoints); }
      Signed(Patterns(t.zeroPoints));
      { SignedPatterns(t.zeroPoints); }
      t.zeroPoints;
    }
  }

  /** Where the decoder finds each section, given the counts it reads. */
  lemma DecodeLayout(mem: seq<Byte>, at: nat, t: Tensor, p1: nat, p2: nat, p3: nat)
    requires at + 8 <= |mem| && GetU32(mem, at + 4) == |t.dims|
    requires p1 == at + 8 + 4 * |t.dims| && p1 + 8 <= |mem|
    requires GetU32(mem, p1 + 4) == |t.scales|
    requires p2 == p1 + 8 + 4 * |t.scales| && p2 + 4 <= |mem|
    requires GetU32(mem, p2) == |t.zeroPoints|
    requires p3 == p2 + 4 + 4 * |t.zeroPoints| && p3 + 4 <= |mem|
    requires GetU32(mem, p3) == |t.data| && p3 + 4 + |t.data| <= |mem|
    ensures RecordWithin(mem, at)
    ensures ScalesAt(mem, at) == p1 && ZeroPointsAt(mem, at) == p2 && DataLengthAt(mem, at) == p3
    ensures LaidOut(mem, at, t)
  {
  }

  /** The firmware's `for (i = 0; i < n; i++) { x[i] = get_u32(ptr); ptr += 4; }`
      loop over the dims and the scales. */
  method ReadWords(dram: seq<Byte>, at: nat, n: nat) returns (ws: seq<U32>)
    requires at + 4 * n <= |dram|
    ensures ws == GetU32s(dram, at, n)
  {
    ws := [];
    var ptr := at;
    var i: nat := 0;
    while i < n
      invariant i <= n && ptr == at + 4 * i
      invariant ws == GetU32s(dram, at, i)
    {
      ws := ws + [GetU32(dram, ptr)];
      ptr := ptr + 4;
      i := i + 1;
    }
  }

  /** The same loop over the zero points, each read as `(int32_t)get_u32(ptr)`. */
  method ReadSignedWords(dram: seq<Byte>, at: nat, n: nat) returns (zs: seq<Int32>)
    requires at + 4 * n <= |dram|
    ensures zs == Signed(GetU32s(dram, at, n))
  {
    zs := [];
    var ptr := at;
    var i: nat := 0;
    while i < n
      invariant i <= n && ptr == at + 4 * i
      invariant zs == Signed(GetU32s(dram, at, i))
    {
      zs := zs + [AsInt32(GetU32(dram, ptr))];
      ptr := ptr + 4;
      i := i + 1;
      assert GetU32s(dram, at, i)[..i - 1] == GetU32s(dram, at, i - 1);
    }
  }

  /** `load_tensor_from_dram(tensor_index)`: the record of a table entry,
      read with a pointer that walks the arena; NULL (`None`) for an index
      outside the 18-entry table (Microblaze/ACC.c:290-358). */
  method LoadTensorFromDram(dram: seq<Byte>, tensorOffsets: seq<nat>, tensorIndex: U32)
    returns (t: Option<Tensor>)
    requires |tensorOffsets| == TotalTensors
    requires tensorIndex < TotalTensors ==> RecordWithin(dram, tensorOffsets[tensorIndex])
    ensures tensorIndex >= TotalTensors <==> t.None?
    ensures tensorIndex < TotalTensors ==> t == Some(Decode(dram, tensorOffsets[tensorIndex]))
  {
    if tensorIndex >= TotalTensors {
      return None;
    }
    var start := tensorOffsets[tensorIndex];
    var ptr: nat := start;
    var tensorId := GetU32(dram, ptr);
    ptr := ptr + 4;
    var numDims: nat := GetU32(dram, ptr);
    ptr := ptr + 4;
    var dims := ReadWords(dram, ptr, numDims);
    ptr := ptr + 4 * numDims;
    assert ptr == ScalesAt(dram, start);
    var dataType := GetU32(dram, ptr);
    ptr := ptr + 4;
    var numScales: nat := GetU32(dram, ptr);
    ptr := ptr + 4;
    var scales := ReadWords(dram, ptr, numScales);
    ptr := ptr + 4 * numScales;
    assert ptr == ZeroPointsAt(dram, start);
    var numZeroPoints: nat := GetU32(dram, ptr);
    ptr := ptr + 4;
    var zeroPoints := ReadSignedWords(dram, ptr, numZeroPoints);
    ptr := ptr + 4 * numZeroPoints;
    assert ptr == DataLengthAt(dram, start);
    var dataLength := GetU32(dram, ptr);
    ptr := ptr + 4;
    var data := dram[ptr..ptr + dataLength];
    t := Some(Tensor(tensorId, dims, dataType, scales, zeroPoints, data));
  }
}
