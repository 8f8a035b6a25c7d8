/**
  `maxpool2d` (Microblaze/ACC.c:601-625): max pooling over a channel-last
  (height x width x channels) int8 tensor. The output has
  (height - poolHeight) / stride + 1 rows and (width - poolWidth) / stride + 1
  columns. Every output entry is the largest value of its
  poolHeight x poolWidth window, found by a running maximum that starts at
  -128 and is replaced only by a strictly larger value.

  The inference routine calls it on conv2's 120 x 125 x 64 output with a
  2 x 2 window and stride 2 (Microblaze/ACC.c:931-945), which gives
  60 x 62 x 64.
*/
module MaxPool {
  import opened Bytes
  import opened Layers

  /** The shape arguments of `maxpool2d`. */
  datatype Pooling = Pooling(height: nat, width: nat, channels: nat,
                             poolHeight: nat, poolWidth: nat, stride: nat)
  {
    /** What the routine needs of its caller: a stride it can divide by
        and a window that fits in the input (otherwise the output size
        formula overshoots and the windows read past the input). */
    predicate Valid() {
      stride >= 1 && poolHeight <= height && poolWidth <= width
    }

    /** `output_height = (input_height - pool_height) / stride + 1`. */
    function OutHeight(): nat
      requires Valid()
    {
      (height - poolHeight) / stride + 1
    }

    /** `output_width = (input_width - pool_width) / stride + 1`. */
    function OutWidth(): nat
      requires Valid()
    {
      (width - poolWidth) / stride + 1
    }

    /** Number of output entries. */
    function OutputSize(): nat
      requires Valid()
    {
      OutHeight() * OutWidth() * channels
    }
  }

  /** The pooling the inference routine runs after conv2. */
  function Conv2Pooling(): (g: Pooling)
    ensures g.Valid()
    ensures g.height == 120 && g.width == 125 && g.channels == 64
    ensures g.OutHeight() == 60 && g.OutWidth() == 62 && g.OutputSize() == 238080
  {
    Pooling(120, 125, 64, 2, 2, 2)
  }

  /** Dividing by w rounds down: (x / w) * w <= x < (x / w + 1) * w. */
  lemma Quotient(x: nat, w: nat)
    requires w > 0
    ensures Mul(x / w, w) <= x < Mul(x / w + 1, w)
  {
    MulIsProduct(x / w, w);
  }

  /** Where pixel (row, col) of a channel-last tensor with `w` columns and
      `c` channels starts: `((row * w) + col) * c`. */
  function Offset(w: nat, c: nat, row: nat, col: nat): nat {
    Mul(Mul(row, w) + col, c)
  }

  /** Channel-last index `((row * w) + col) * c + ch`; it lies inside an
      h x w x c tensor. */
  function Index(h: nat, w: nat, c: nat, row: nat, col: nat, ch: nat): (i: nat)
    requires row < h && col < w && ch < c
    ensures i < h * w * c
  {
    MulMonotone(row + 1, h, w);
    MulMonotone(Mul(row, w) + col + 1, Mul(h, w), c);
    MulIsProduct(h, w);
    MulIsProduct(h * w, c);
    Offset(w, c, row, col) + ch
  }

  /** A window starting at output position `o` stays inside an input
      dimension `n`: o * stride + a < n for every a below the pool size. */
  lemma WindowInside(n: nat, pool: nat, stride: nat, o: nat, a: nat)
    requires stride >= 1 && pool <= n && o < (n - pool) / stride + 1 && a < pool
    ensures Mul(o, stride) + a < n
  {
    Quotient(n - pool, stride);
    MulMonotone(o, (n - pool) / stride, stride);
  }

  /** A position below h * w has its row below h. */
  lemma RowBelow(p: nat, h: nat, w: nat)
    requires p < h * w
    ensures w > 0 && p / w < h
  {
    MulIsProduct(h, w);
    if w > 0 && p / w >= h {
      Quotient(p, w);
      MulMonotone(h, p / w, w);
      assert false;
    }
  }

  /** Tap (a, b) of channel `ch` of the window of output position (oh, ow):
      `input[((in_h * input_width) + in_w) * channels + ch]` with
      in_h = oh * stride + a and in_w = ow * stride + b. */
  function Tap(input: seq<Int8>, g: Pooling, oh: nat, ow: nat, ch: nat, a: nat, b: nat): Int8
    requires g.Valid() && |input| >= g.height * g.width * g.channels
    requires oh < g.OutHeight() && ow < g.OutWidth() && ch < g.channels
    requires a < g.poolHeight && b < g.poolWidth
  {
    WindowInside(g.height, g.poolHeight, g.stride, oh, a);
    WindowInside(g.width, g.poolWidth, g.stride, ow, b);
    input[Index(g.height, g.width, g.channels, Mul(oh, g.stride) + a, Mul(ow, g.stride) + b, ch)]
  }

  /** Row `a` of that window, left to right. */
  function RowTaps(input: seq<Int8>, g: Pooling, oh: nat, ow: nat, ch: nat, a: nat): (vs: seq<Int8>)
    requires g.Valid() && |input| >= g.height * g.width * g.channels
    requires oh < g.OutHeight() && ow < g.OutWidth() && ch < g.channels && a < g.poolHeight
    ensures |vs| == g.poolWidth
    ensures forall b | 0 <= b < g.poolWidth :: vs[b] == Tap(input, g, oh, ow, ch, a, b)
  {
    seq(g.poolWidth, b requires 0 <= b < g.poolWidth => Tap(input, g, oh, ow, ch, a, b))
  }

  /** The window's rows, top to bottom, in the order the pooling loops
      visit them. */
  function WindowRows(input: seq<Int8>, g: Pooling, oh: nat, ow: nat, ch: nat): (rows: seq<seq<Int8>>)
    requires g.Valid() && |input| >= g.height * g.width * g.channels
    requires oh < g.OutHeight() && ow < g.OutWidth() && ch < g.channels
    ensures |rows| == g.poolHeight
    ensures forall a | 0 <= a < g.poolHeight :: rows[a] == RowTaps(input, g, oh, ow, ch, a)
  {
    seq(g.poolHeight, a requires 0 <= a < g.poolHeight => RowTaps(input, g, oh, ow, ch, a))
  }

  /** The running maximum `if (val > max_val) max_val = val;` continued
      from `m` over the values `vs`, in order. */
  function MaxFrom(m: Int8, vs: seq<Int8>): Int8 {
    if |vs| == 0 then m
    else
      var before := MaxFrom(m, vs[..|vs| - 1]);
      if vs[|vs| - 1] > before then vs[|vs| - 1] else before
  }

  /** The running maximum over whole rows, starting from -128. */
  function RowsMax(rows: seq<seq<Int8>>): Int8 {
    if |rows| == 0 then -128
    else MaxFrom(RowsMax(rows[..|rows| - 1]), rows[|rows| - 1])
  }

  /** The value stored for channel `ch` of output position (oh, ow). */
  function PoolValue(input: seq<Int8>, g: Pooling, oh: nat, ow: nat, ch: nat): Int8
    requires g.Valid() && |input| >= g.height * g.width * g.channels
    requires oh < g.OutHeight() && ow < g.OutWidth() && ch < g.channels
  {
    RowsMax(WindowRows(input, g, oh, ow, ch))
  }

  /** The values stored for output position (oh, ow), by channel. */
  function PixelPool(input: seq<Int8>, g: Pooling, oh: nat, ow: nat): (vs: seq<Int8>)
    requires g.Valid() && |input| >= g.height * g.width * g.channels
    requires oh < g.OutHeight() && ow < g.OutWidth()
    ensures |vs| == g.channels
    ensures forall ch | 0 <= ch < g.channels :: vs[ch] == PoolValue(input, g, oh, ow, ch)
  {
    seq(g.channels, ch requires 0 <= ch < g.channels => PoolValue(input, g, oh, ow, ch))
  }

  /** The output of the first `n` output positions in row-major order
      (position p is row p / OutWidth(), column p % OutWidth()). */
  function PoolOutput(input: seq<Int8>, g: Pooling, n: nat): seq<Int8>
    requires g.Valid() && |input| >= g.height * g.width * g.channels
    requires n <= g.OutHeight() * g.OutWidth()
  {
    if n == 0 then []
    else
      RowBelow(n - 1, g.OutHeight(), g.OutWidth());
      PoolOutput(input, g, n - 1) + PixelPool(input, g, (n - 1) / g.OutWidth(), (n - 1) % g.OutWidth())
  }

  /** Appending one value compares it with the maximum so far. */
  lemma MaxFromSnoc(m: Int8, vs: seq<Int8>, v: Int8)
    ensures MaxFrom(m, vs + [v]) == if v > MaxFrom(m, vs) then v else MaxFrom(m, vs)
  {
    assert (vs + [v])[..|vs|] == vs;
  }

  /** Appending a row continues the maximum over it. */
  lemma RowsMaxSnoc(rows: seq<seq<Int8>>, row: seq<Int8>)
    ensures RowsMax(rows + [row]) == MaxFrom(RowsMax(rows), row)
  {
    assert (rows + [row])[..|rows|] == rows;
  }

  /** Continuing a running maximum from `m` over `vs` gives a value at
      least `m` and every value of `vs`, and it is `m` or one of them. */
  lemma {:induction false} MaxFromIsMax(m: Int8, vs: seq<Int8>)
    ensures m <= MaxFrom(m, vs)
    ensures forall i | 0 <= i < |vs| :: vs[i] <= MaxFrom(m, vs)
    ensures MaxFrom(m, vs) == m || MaxFrom(m, vs) in vs
  {
    if |vs| > 0 {
      var init := vs[..|vs| - 1];
      MaxFromIsMax(m, init);
      assert vs == init + [vs[|vs| - 1]];
      assert forall i | 0 <= i < |init| :: vs[i] == init[i];
    }
  }

  /** The maximum over rows is at least every value of every row, and it
      is one of them or the starting -128. */
  lemma {:induction false} RowsMaxIsMax(rows: seq<seq<Int8>>)
    ensures forall a, b | 0 <= a < |rows| && 0 <= b < |rows[a]| :: rows[a][b] <= RowsMax(rows)
    ensures RowsMax(rows) == -128 || exists a, b | 0 <= a < |rows| && 0 <= b < |rows[a]| :: rows[a][b] == RowsMax(rows)
  {
    if |rows| > 0 {
      var init, last := rows[..|rows| - 1], rows[|rows| - 1];
      RowsMaxIsMax(init);
      MaxFromIsMax(RowsMax(init), last);
      assert forall a | 0 <= a < |init| :: rows[a] == init[a];
      if RowsMax(rows) != RowsMax(init) {
        var b :| 0 <= b < |last| && last[b] == RowsMax(rows);
        assert rows[|rows| - 1][b] == RowsMax(rows);
      }
    }
  }

  /** What `maxpool2d` promises for one output entry: it is at least every
      value of its window and, when the window is not empty, equal to one
      of them; an empty window leaves it at -128. */
  lemma PoolValueIsMax(input: seq<Int8>, g: Pooling, oh: nat, ow: nat, ch: nat)
    requires g.Valid() && |input| >= g.height * g.width * g.channels
    requires oh < g.OutHeight() && ow < g.OutWidth() && ch < g.channels
    ensures forall a, b | 0 <= a < g.poolHeight && 0 <= b < g.poolWidth ::
              Tap(input, g, oh, ow, ch, a, b) <= PoolValue(input, g, oh, ow, ch)
    ensures g.poolHeight > 0 && g.poolWidth > 0 ==>
              exists a, b | 0 <= a < g.poolHeight && 0 <= b < g.poolWidth ::
                Tap(input, g, oh, ow, ch, a, b) == PoolValue(input, g, oh, ow, ch)
    ensures g.poolHeight == 0 || g.poolWidth == 0 ==> PoolValue(input, g, oh, ow, ch) == -128
  {
    var rows := WindowRows(input, g, oh, ow, ch);
    RowsMaxIsMax(rows);
    forall a, b | 0 <= a < g.poolHeight && 0 <= b < g.poolWidth
      ensures Tap(input, g, oh, ow, ch, a, b) == rows[a][b]
    {
      assert rows[a] == RowTaps(input, g, oh, ow, ch, a);
    }
    if g.poolHeight > 0 && g.poolWidth > 0 {
      if RowsMax(rows) == -128 {
        assert Tap(input, g, oh, ow, ch, 0, 0) == rows[0][0];
      } else {
        var a, b :| 0 <= a < |rows| && 0 <= b < |rows[a]| && rows[a][b] == RowsMax(rows);
        assert Tap(input, g, oh, ow, ch, a, b) == rows[a][b];
      }
    } else if g.poolHeight > 0 {
      assert forall a | 0 <= a < |rows| :: |rows[a]| == 0;
    }
  }

  /** The pooling writes one value per channel per output position. */
  lemma {:induction false} PoolOutputLength(input: seq<Int8>, g: Pooling, n: nat)
    requires g.Valid() && |input| >= g.height * g.width * g.channels
    requires n <= g.OutHeight() * g.OutWidth()
    ensures |PoolOutput(input, g, n)| == Mul(n, g.channels)
  {
    if n > 0 {
      PoolOutputLength(input, g, n - 1);
    }
  }

  /** Row-major position oh * w + ow has row oh and column ow. */
  lemma RowColumn(oh: nat, ow: nat, w: nat)
    requires ow < w
    ensures (Mul(oh, w) + ow) / w == oh && (Mul(oh, w) + ow) % w == ow
  {
    var x := Mul(oh, w) + ow;
    var q := x / w;
    Quotient(x, w);
    if q > oh {
      MulMonotone(oh + 1, q, w);
      assert false;
    }
    if q < oh {
      MulMonotone(q + 1, oh, w);
      assert false;
    }
    MulIsProduct(q, w);
  }

  /** The entry for channel ch of output position (oh, ow) among the
      first n positions' output. */
  lemma {:induction false} PoolOutputEntry(input: seq<Int8>, g: Pooling, n: nat, oh: nat, ow: nat, ch: nat)
    requires g.Valid() && |input| >= g.height * g.width * g.channels
    requires n <= g.OutHeight() * g.OutWidth()
    requires oh < g.OutHeight() && ow < g.OutWidth() && ch < g.channels && Mul(oh, g.OutWidth()) + ow < n
    ensures && Offset(g.OutWidth(), g.channels, oh, ow) + ch < |PoolOutput(input, g, n)|
            && PoolOutput(input, g, n)[Offset(g.OutWidth(), g.channels, oh, ow) + ch] == PoolValue(input, g, oh, ow, ch)
  {
    var p := Mul(oh, g.OutWidth()) + ow;
    RowColumn(oh, ow, g.OutWidth());
    PoolOutputLength(input, g, n);
    PoolOutputLength(input, g, n - 1);
    if p < n - 1 {
      MulMonotone(p + 1, n - 1, g.channels);
      PoolOutputEntry(input, g, n - 1, oh, ow, ch);
    }
  }

  /** Entry `((oh * OutWidth()) + ow) * channels + ch` of the output is the
      window maximum of channel ch at output position (oh, ow), and the
      output has OutputSize() entries. */
  lemma PoolOutputAt(input: seq<Int8>, g: Pooling, oh: nat, ow: nat, ch: nat)
    requires g.Valid() && |input| >= g.height * g.width * g.channels
    requires oh < g.OutHeight() && ow < g.OutWidth() && ch < g.channels
    ensures |PoolOutput(input, g, g.OutHeight() * g.OutWidth())| == g.OutputSize()
    ensures PoolOutput(input, g, g.OutHeight() * g.OutWidth())[Index(g.OutHeight(), g.OutWidth(), g.channels, oh, ow, ch)]
            == PoolValue(input, g, oh, ow, ch)
  {
    var n := g.OutHeight() * g.OutWidth();
    PoolOutputLength(input, g, n);
    MulIsProduct(n, g.channels);
    MulIsProduct(g.OutHeight(), g.OutWidth());
    MulMonotone(oh + 1, g.OutHeight(), g.OutWidth());
    PoolOutputEntry(input, g, n, oh, ow, ch);
  }

  /** The output of the first p positions fits in the whole output. */
  lemma PrefixFits(g: Pooling, p: nat)
    requires g.Valid() && p <= g.OutHeight() * g.OutWidth()
    ensures Mul(p, g.channels) <= g.OutputSize()
  {
    MulMonotone(p, g.OutHeight() * g.OutWidth(), g.channels);
    MulIsProduct(g.OutHeight() * g.OutWidth(), g.channels);
  }

  /** Row-major position oh * OutWidth() + ow is below the number of
      output positions. */
  lemma PositionBelow(g: Pooling, oh: nat, ow: nat)
    requires g.Valid() && oh < g.OutHeight() && ow < g.OutWidth()
    ensures Mul(oh, g.OutWidth()) + ow < g.OutHeight() * g.OutWidth()
  {
    MulMonotone(oh + 1, g.OutHeight(), g.OutWidth());
    MulIsProduct(g.OutHeight(), g.OutWidth());
  }

  /** The inner window loop of `maxpool2d` over row `ph` of the window
      (Microblaze/ACC.c:609-617): the running maximum continues from
      `maxVal` over the row's taps, left to right. */
  method RowMax(input: array<Int8>, g: Pooling, oh: nat, ow: nat, ch: nat, ph: nat, maxVal: Int8)
    returns (maxVal': Int8)
    requires g.Valid() && input.Length >= g.height * g.width * g.channels
    requires oh < g.OutHeight() && ow < g.OutWidth() && ch < g.channels && ph < g.poolHeight
    ensures maxVal' == MaxFrom(maxVal, RowTaps(input[..], g, oh, ow, ch, ph))
  {
    ghost var row := RowTaps(input[..], g, oh, ow, ch, ph);
    maxVal' := maxVal;
    for pw := 0 to g.poolWidth
      invariant maxVal' == MaxFrom(maxVal, row[..pw])
    {
      WindowInside(g.height, g.poolHeight, g.stride, oh, ph);
      WindowInside(g.width, g.poolWidth, g.stride, ow, pw);
      var inH, inW := Mul(oh, g.stride) + ph, Mul(ow, g.stride) + pw;
      var val := input[Index(g.height, g.width, g.channels, inH, inW, ch)];
      MaxFromSnoc(maxVal, row[..pw], val);
      assert row[..pw + 1] == row[..pw] + [val];
      if val > maxVal' {
        maxVal' := val;
      }
    }
    assert row[..g.poolWidth] == row;
  }

  /** The two window loops of `maxpool2d` for channel `ch` of output
      position (oh, ow) (Microblaze/ACC.c:608-618): the running maximum
      from -128 over the window, row by row. */
  method WindowMax(input: array<Int8>, g: Pooling, oh: nat, ow: nat, ch: nat) returns (maxVal: Int8)
    requires g.Valid() && input.Length >= g.height * g.width * g.channels
    requires oh < g.OutHeight() && ow < g.OutWidth() && ch < g.channels
    ensures maxVal == PoolValue(input[..], g, oh, ow, ch)
  {
    ghost var rows := WindowRows(input[..], g, oh, ow, ch);
    maxVal := -128;
    for ph := 0 to g.poolHeight
      invariant maxVal == RowsMax(rows[..ph])
    {
      maxVal := RowMax(input, g, oh, ow, ch, ph, maxVal);
      assert rows[ph] == RowTaps(input[..], g, oh, ow, ch, ph);
      RowsMaxSnoc(rows[..ph], rows[ph]);
      assert rows[..ph + 1] == rows[..ph] + [rows[ph]];
    }
    assert rows[..g.poolHeight] == rows;
  }

  /** A sequence that agrees with `a` outside [base, base + |vs|) and
      holds `vs` inside it is `a` with `vs` written at `base`. */
  lemma WrittenRun(a: seq<Int8>, o: seq<Int8>, vs: seq<Int8>, base: nat)
    requires |o| == |a| && base + |vs| <= |a|
    requires forall i | 0 <= i < |a| && !(base <= i < base + |vs|) :: o[i] == a[i]
    requires forall k | 0 <= k < |vs| :: o[base + k] == vs[k]
    ensures o == a[..base] + vs + a[base + |vs|..]
  {
  }

  /** The channel loop for output position (oh, ow)
      (Microblaze/ACC.c:607-621): channel ch's maximum is stored at
      `((oh * OutWidth()) + ow) * channels + ch`; nothing else in `output`
      changes. */
  method PoolPixel(input: array<Int8>, g: Pooling, oh: nat, ow: nat, output: array<Int8>)
    requires g.Valid() && input.Length >= g.height * g.width * g.channels
    requires oh < g.OutHeight() && ow < g.OutWidth()
    requires output.Length >= g.OutputSize() && output != input
    modifies output
    ensures Offset(g.OutWidth(), g.channels, oh, ow) + g.channels <= output.Length
    ensures var base := Offset(g.OutWidth(), g.channels, oh, ow);
            output[..] == old(output[..])[..base] + PixelPool(input[..], g, oh, ow) + old(output[..])[base + g.channels..]
  {
    var base := Offset(g.OutWidth(), g.channels, oh, ow);
    ghost var values := PixelPool(input[..], g, oh, ow);
    PositionBelow(g, oh, ow);
    PrefixFits(g, Mul(oh, g.OutWidth()) + ow + 1);
    for ch := 0 to g.channels
      invariant forall i | 0 <= i < output.Length && !(base <= i < base + ch) :: output[i] == old(output[i])
      invariant forall k | 0 <= k < ch :: output[base + k] == values[k]
    {
      var maxVal := WindowMax(input, g, oh, ow, ch);
      output[base + ch] := maxVal;
    }
    WrittenRun(old(output[..]), output[..], values, base);
  }

  /** `output` holds the output of the first p positions, and past them
      the entries of `before`. */
  ghost predicate PoolPrefix(input: seq<Int8>, g: Pooling, p: nat, before: seq<Int8>, output: seq<Int8>)
    requires g.Valid() && |input| >= g.height * g.width * g.channels
  {
    && p <= g.OutHeight() * g.OutWidth()
    && |output| == |before| && Mul(p, g.channels) <= |output|
    && output[..Mul(p, g.channels)] == PoolOutput(input, g, p)
    && output[Mul(p, g.channels)..] == before[Mul(p, g.channels)..]
  }

  /** One iteration of the column loop, for output position (oh, ow):
      the stored output grows from the first p positions to the first
      p + 1, p = oh * OutWidth() + ow. */
  method PoolStep(input: array<Int8>, g: Pooling, oh: nat, ow: nat, output: array<Int8>, ghost before: seq<Int8>)
    requires g.Valid() && input.Length >= g.height * g.width * g.channels
    requires oh < g.OutHeight() && ow < g.OutWidth()
    requires output.Length >= g.OutputSize() && output != input
    requires PoolPrefix(input[..], g, Mul(oh, g.OutWidth()) + ow, before, output[..])
    modifies output
    ensures PoolPrefix(input[..], g, Mul(oh, g.OutWidth()) + ow + 1, before, output[..])
  {
    ghost var p := Mul(oh, g.OutWidth()) + ow;
    PoolPixel(input, g, oh, ow, output);
    PositionBelow(g, oh, ow);
    RowColumn(oh, ow, g.OutWidth());
    PoolOutputLength(input[..], g, p);
    assert PoolOutput(input[..], g, p + 1) == PoolOutput(input[..], g, p) + PixelPool(input[..], g, oh, ow);
    SplicedParts(old(output[..]), PixelPool(input[..], g, oh, ow), Mul(p, g.channels));
  }

  /** One iteration of the row loop, for output row oh: the stored output
      grows from the first oh rows to the first oh + 1. */
  method PoolRow(input: array<Int8>, g: Pooling, oh: nat, output: array<Int8>, ghost before: seq<Int8>)
    requires g.Valid() && input.Length >= g.height * g.width * g.channels
    requires oh < g.OutHeight()
    requires output.Length >= g.OutputSize() && output != input
    requires PoolPrefix(input[..], g, Mul(oh, g.OutWidth()), before, output[..])
    modifies output
    ensures PoolPrefix(input[..], g, Mul(oh + 1, g.OutWidth()), before, output[..])
  {
    for ow := 0 to g.OutWidth()
      invariant PoolPrefix(input[..], g, Mul(oh, g.OutWidth()) + ow, before, output[..])
    {
      PoolStep(input, g, oh, ow, output, before);
    }
  }

  /** `maxpool2d` (Microblaze/ACC.c:601-625): the first OutputSize()
      entries of `output` are the window maxima of every output position
      and channel in row-major, channel-last order; nothing past them is
      written. */
  method MaxPool2d(input: array<Int8>, inputHeight: nat, inputWidth: nat, channels: nat,
                   poolHeight: nat, poolWidth: nat, stride: nat, output: array<Int8>)
    requires stride >= 1 && poolHeight <= inputHeight && poolWidth <= inputWidth
    requires input.Length >= inputHeight * inputWidth * channels
    requires output.Length >= Pooling(inputHeight, inputWidth, channels, poolHeight, poolWidth, stride).OutputSize()
    requires output != input
    modifies output
    ensures var g := Pooling(inputHeight, inputWidth, channels, poolHeight, poolWidth, stride);
            && output[..g.OutputSize()] == PoolOutput(input[..], g, g.OutHeight() * g.OutWidth())
            && output[g.OutputSize()..] == old(output[..])[g.OutputSize()..]
  {
    var g := Pooling(inputHeight, inputWidth, channels, poolHeight, poolWidth, stride);
    var outputHeight := (inputHeight - poolHeight) / stride + 1;
    for h := 0 to outputHeight
      invariant PoolPrefix(input[..], g, Mul(h, g.OutWidth()), old(output[..]), output[..])
    {
      PoolRow(input, g, h, output, old(output[..]));
    }
    MulIsProduct(g.OutHeight(), g.OutWidth());
    MulIsProduct(g.OutHeight() * g.OutWidth(), channels);
  }
}
