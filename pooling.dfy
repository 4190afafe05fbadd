/**
 * MaxPoolingLayer: spatial max pooling over non-overlapping XSpan x YSpan windows of a
 * channels-last tensor, with the reverse-mode (gradient) and forward-mode (R-operator)
 * routing through the selected maximum of every window.
 */
module MaxPooling {
  import opened Arith
  import opened Tensors
  import opened Sums

  /** The layer's configuration, in the field order of the Go struct literal. */
  datatype Layer = Layer(XSpan: nat, YSpan: nat, InputWidth: nat, InputHeight: nat, InputDepth: nat)

  datatype Error = ShapeMismatch

  datatype Result<T> = Success(value: T) | Failure(error: Error)

  /** Spans and input dimensions are positive. */
  predicate Valid(l: Layer)
  {
    l.XSpan > 0 && l.YSpan > 0 && l.InputWidth > 0 && l.InputHeight > 0 && l.InputDepth > 0
  }

  // ---------------------------------------------------------------------------
  // Output-size arithmetic

  /** Ceiling division: the number of span-wide windows needed to cover n cells. */
  function CeilDiv(n: nat, s: nat): (r: nat)
    requires s > 0
    ensures r * s >= n && r * s - s < n
  {
    assert n == (n / s) * s + n % s;
    n / s + (if n % s == 0 then 0 else 1)
  }

  /** The two bounds of CeilDiv determine it. */
  lemma CeilDivUnique(n: nat, s: nat, r: nat)
    requires s > 0 && r * s >= n && r * s - s < n
    ensures r == CeilDiv(n, s)
  {
    var c := CeilDiv(n, s);
    if r < c {
      MulMonotone(r + 1, c, s);
      assert false;
    } else if r > c {
      MulMonotone(c + 1, r, s);
      assert false;
    }
  }

  function OutputWidth(l: Layer): (r: nat)
    requires Valid(l)
    ensures r * l.XSpan >= l.InputWidth && (r - 1) * l.XSpan < l.InputWidth
  {
    CeilDiv(l.InputWidth, l.XSpan)
  }

  function OutputHeight(l: Layer): (r: nat)
    requires Valid(l)
    ensures r * l.YSpan >= l.InputHeight && (r - 1) * l.YSpan < l.InputHeight
  {
    CeilDiv(l.InputHeight, l.YSpan)
  }

  function InputSize(l: Layer): nat
  {
    l.InputWidth * l.InputHeight * l.InputDepth
  }

  /** The output keeps the input's depth: pooling never mixes channels. */
  function OutputSize(l: Layer): nat
    requires Valid(l)
  {
    MulNonnegative(OutputWidth(l), OutputHeight(l), l.InputDepth);
    OutputWidth(l) * OutputHeight(l) * l.InputDepth
  }

  /** The configurations and output sizes exercised by the dimension test. */
  lemma DimensionExamples()
    ensures OutputWidth(Layer(3, 3, 9, 9, 5)) == 3 && OutputHeight(Layer(3, 3, 9, 9, 5)) == 3
    ensures OutputWidth(Layer(2, 2, 9, 9, 7)) == 5 && OutputHeight(Layer(2, 2, 9, 9, 7)) == 5
    ensures OutputWidth(Layer(4, 10, 30, 51, 2)) == 8 && OutputHeight(Layer(4, 10, 30, 51, 2)) == 6
    ensures OutputSize(Layer(3, 3, 10, 11, 2)) == 32
  {
  }

  // ---------------------------------------------------------------------------
  // Windows along one axis

  function WinStart(o: nat, s: nat): nat
  {
    o * s
  }

  /** One past the last cell of window o; the last window is clipped to the input. */
  function WinEnd(o: nat, s: nat, n: nat): (e: nat)
    ensures e <= n && e <= (o + 1) * s
    ensures e == n || e == (o + 1) * s
  {
    if (o + 1) * s < n then (o + 1) * s else n
  }

  /** Every window an output cell stands for holds at least one input cell. */
  lemma WindowNonEmpty(o: nat, s: nat, n: nat)
    requires s > 0 && o < CeilDiv(n, s)
    ensures WinStart(o, s) < WinEnd(o, s, n) <= n
  {
    MulMonotone(o + 1, CeilDiv(n, s), s);
  }

  /** Input cell x lies in window o exactly when x / s == o: the windows partition the axis. */
  lemma WindowCells(o: nat, s: nat, n: nat, x: nat)
    requires s > 0 && o < CeilDiv(n, s)
    ensures (x < n && x / s == o) <==> (WinStart(o, s) <= x < WinEnd(o, s, n))
  {
    if WinStart(o, s) <= x < WinEnd(o, s, n) {
      DivModUnique(x, s, o, x - o * s);
    }
    if x < n && x / s == o {
      assert x == o * s + x % s;
    }
  }

  /** The window that holds input cell x is an existing output column. */
  lemma WindowOfCell(x: nat, s: nat, n: nat)
    requires s > 0 && x < n
    ensures x / s < CeilDiv(n, s)
  {
    var c := CeilDiv(n, s);
    if x / s >= c {
      MulMonotone(c, x / s, s);
      assert false;
    }
  }

  // ---------------------------------------------------------------------------
  // The maximum over a rectangle of one channel (the reference definition)

  function Max(a: real, b: real): real
  {
    if a < b then b else a
  }

  /** Maximum of row y, columns [x0, x1), channel z. */
  function RowMax(t: seq<real>, w: nat, h: nat, d: nat, y: nat, z: nat, x0: nat, x1: nat): real
    requires |t| == w * h * d && x0 < x1 <= w && y < h && z < d
    decreases x1
  {
    var v := At(t, w, h, d, x1 - 1, y, z);
    if x1 == x0 + 1 then v else Max(RowMax(t, w, h, d, y, z, x0, x1 - 1), v)
  }

  /** Maximum of columns [x0, x1) by rows [y0, y1), channel z. */
  function RectMax(t: seq<real>, w: nat, h: nat, d: nat, z: nat, x0: nat, x1: nat, y0: nat, y1: nat): real
    requires |t| == w * h * d && x0 < x1 <= w && y0 < y1 <= h && z < d
    decreases y1
  {
    var r := RowMax(t, w, h, d, y1 - 1, z, x0, x1);
    if y1 == y0 + 1 then r else Max(RectMax(t, w, h, d, z, x0, x1, y0, y1 - 1), r)
  }

  lemma {:induction false} RowMaxBound(t: seq<real>, w: nat, h: nat, d: nat, y: nat, z: nat, x0: nat, x1: nat, x: nat)
    requires |t| == w * h * d && x0 < x1 <= w && y < h && z < d && x0 <= x < x1
    ensures At(t, w, h, d, x, y, z) <= RowMax(t, w, h, d, y, z, x0, x1)
    decreases x1
  {
    if x < x1 - 1 {
      RowMaxBound(t, w, h, d, y, z, x0, x1 - 1, x);
    }
  }

  lemma {:induction false} RowMaxAttained(t: seq<real>, w: nat, h: nat, d: nat, y: nat, z: nat, x0: nat, x1: nat)
    returns (x: nat)
    requires |t| == w * h * d && x0 < x1 <= w && y < h && z < d
    ensures x0 <= x < x1 && At(t, w, h, d, x, y, z) == RowMax(t, w, h, d, y, z, x0, x1)
    decreases x1
  {
    if x1 == x0 + 1 {
      x := x0;
    } else {
      x := RowMaxAttained(t, w, h, d, y, z, x0, x1 - 1);
      if RowMax(t, w, h, d, y, z, x0, x1 - 1) < At(t, w, h, d, x1 - 1, y, z) {
        x := x1 - 1;
      }
    }
  }

  /** Every cell of the rectangle is at most its maximum. */
  lemma {:induction false} RectMaxBound(t: seq<real>, w: nat, h: nat, d: nat, z: nat, x0: nat, x1: nat, y0: nat, y1: nat, x: nat, y: nat)
    requires |t| == w * h * d && x0 < x1 <= w && y0 < y1 <= h && z < d
    requires x0 <= x < x1 && y0 <= y < y1
    ensures At(t, w, h, d, x, y, z) <= RectMax(t, w, h, d, z, x0, x1, y0, y1)
    decreases y1
  {
    if y < y1 - 1 {
      RectMaxBound(t, w, h, d, z, x0, x1, y0, y1 - 1, x, y);
    } else {
      RowMaxBound(t, w, h, d, y, z, x0, x1, x);
    }
  }

  /** Some cell of the rectangle holds its maximum. */
  lemma {:induction false} RectMaxAttained(t: seq<real>, w: nat, h: nat, d: nat, z: nat, x0: nat, x1: nat, y0: nat, y1: nat)
    returns (x: nat, y: nat)
    requires |t| == w * h * d && x0 < x1 <= w && y0 < y1 <= h && z < d
    ensures x0 <= x < x1 && y0 <= y < y1
    ensures At(t, w, h, d, x, y, z) == RectMax(t, w, h, d, z, x0, x1, y0, y1)
    decreases y1
  {
    var rx := RowMaxAttained(t, w, h, d, y1 - 1, z, x0, x1);
    if y1 == y0 + 1 {
      x, y := rx, y1 - 1;
    } else {
      x, y := RectMaxAttained(t, w, h, d, z, x0, x1, y0, y1 - 1);
      if RectMax(t, w, h, d, z, x0, x1, y0, y1 - 1) < RowMax(t, w, h, d, y1 - 1, z, x0, x1) {
        x, y := rx, y1 - 1;
      }
    }
  }

  /** A value held by a cell of the rectangle and bounding all of them is its maximum. */
  lemma RectMaxUnique(t: seq<real>, w: nat, h: nat, d: nat, z: nat, x0: nat, x1: nat, y0: nat, y1: nat, x: nat, y: nat)
    requires |t| == w * h * d && x0 < x1 <= w && y0 < y1 <= h && z < d
    requires x0 <= x < x1 && y0 <= y < y1
    requires forall x': nat, y': nat | x0 <= x' < x1 && y0 <= y' < y1 :: At(t, w, h, d, x', y', z) <= At(t, w, h, d, x, y, z)
    ensures At(t, w, h, d, x, y, z) == RectMax(t, w, h, d, z, x0, x1, y0, y1)
  {
    var mx, my := RectMaxAttained(t, w, h, d, z, x0, x1, y0, y1);
    RectMaxBound(t, w, h, d, z, x0, x1, y0, y1, x, y);
  }

  // ---------------------------------------------------------------------------
  // Windows of the layer

  /** The input cell at flat offset i lies in the window of output cell (ox, oy, z). */
  predicate InWindow(l: Layer, ox: nat, oy: nat, z: nat, i: nat)
    requires Valid(l)
  {
    var c := Coords(i, l.InputWidth, l.InputDepth);
    i < InputSize(l) && c.0 / l.XSpan == ox && c.1 / l.YSpan == oy && c.2 == z
  }

  /** The maximum of the clipped window of output cell (ox, oy, z). */
  function WindowMax(l: Layer, input: seq<real>, ox: nat, oy: nat, z: nat): real
    requires Valid(l) && |input| == InputSize(l)
    requires ox < OutputWidth(l) && oy < OutputHeight(l) && z < l.InputDepth
  {
    WindowNonEmpty(ox, l.XSpan, l.InputWidth);
    WindowNonEmpty(oy, l.YSpan, l.InputHeight);
    RectMax(input, l.InputWidth, l.InputHeight, l.InputDepth, z,
            WinStart(ox, l.XSpan), WinEnd(ox, l.XSpan, l.InputWidth),
            WinStart(oy, l.YSpan), WinEnd(oy, l.YSpan, l.InputHeight))
  }

  /** Input cell i is a selected maximum of the window of output cell (ox, oy, z). */
  predicate IsArgMax(l: Layer, input: seq<real>, ox: nat, oy: nat, z: nat, i: nat)
    requires Valid(l) && |input| == InputSize(l)
    requires ox < OutputWidth(l) && oy < OutputHeight(l) && z < l.InputDepth
  {
    InWindow(l, ox, oy, z, i) && input[i] == WindowMax(l, input, ox, oy, z)
  }

  /** The input cell (x, y, z) is in the window of (ox, oy, z) iff it lies in the window's ranges. */
  lemma InWindowCell(l: Layer, ox: nat, oy: nat, z: nat, x: nat, y: nat, z': nat)
    requires Valid(l) && ox < OutputWidth(l) && oy < OutputHeight(l)
    requires x < l.InputWidth && z' < l.InputDepth
    ensures InWindow(l, ox, oy, z, Idx(x, y, z', l.InputWidth, l.InputDepth)) <==>
      WinStart(ox, l.XSpan) <= x < WinEnd(ox, l.XSpan, l.InputWidth) &&
      WinStart(oy, l.YSpan) <= y < WinEnd(oy, l.YSpan, l.InputHeight) && z' == z
  {
    var w, h, d := l.InputWidth, l.InputHeight, l.InputDepth;
    var i := Idx(x, y, z', w, d);
    CoordsOfIdx(x, y, z', w, d);
    assert Coords(i, w, d) == (x, y, z');
    WindowCells(ox, l.XSpan, w, x);
    WindowCells(oy, l.YSpan, h, y);
    assert InWindow(l, ox, oy, z, i) <==> i < w * h * d && x / l.XSpan == ox && y / l.YSpan == oy && z' == z;
    if y < h {
      IdxInRange(x, y, z', w, h, d);
    } else if i < w * h * d {
      CoordsInRange(i, w, h, d);
    }
  }

  /**
   * A cell is a selected maximum iff it lies in the window and no cell of the window
   * holds a larger value.
   */
  lemma ArgMaxCharacterization(l: Layer, input: seq<real>, ox: nat, oy: nat, z: nat, i: nat)
    requires Valid(l) && |input| == InputSize(l)
    requires ox < OutputWidth(l) && oy < OutputHeight(l) && z < l.InputDepth
    ensures IsArgMax(l, input, ox, oy, z, i) <==>
      InWindow(l, ox, oy, z, i) &&
      forall j: nat | j < |input| && InWindow(l, ox, oy, z, j) :: input[j] <= input[i]
  {
    var (w, h, d) := (l.InputWidth, l.InputHeight, l.InputDepth);
    var (x0, x1) := (WinStart(ox, l.XSpan), WinEnd(ox, l.XSpan, w));
    var (y0, y1) := (WinStart(oy, l.YSpan), WinEnd(oy, l.YSpan, h));
    WindowNonEmpty(ox, l.XSpan, w);
    WindowNonEmpty(oy, l.YSpan, h);
    if InWindow(l, ox, oy, z, i) {
      var c := Coords(i, w, d);
      CoordsInRange(i, w, h, d);
      InWindowCell(l, ox, oy, z, c.0, c.1, c.2);
      assert At(input, w, h, d, c.0, c.1, z) == input[i];
      if IsArgMax(l, input, ox, oy, z, i) {
        forall j: nat | j < |input| && InWindow(l, ox, oy, z, j)
          ensures input[j] <= input[i]
        {
          var cj := Coords(j, w, d);
          CoordsInRange(j, w, h, d);
          InWindowCell(l, ox, oy, z, cj.0, cj.1, cj.2);
          RectMaxBound(input, w, h, d, z, x0, x1, y0, y1, cj.0, cj.1);
        }
      }
      if forall j: nat | j < |input| && InWindow(l, ox, oy, z, j) :: input[j] <= input[i] {
        forall x': nat, y': nat | x0 <= x' < x1 && y0 <= y' < y1
          ensures At(input, w, h, d, x', y', z) <= At(input, w, h, d, c.0, c.1, z)
        {
          InWindowCell(l, ox, oy, z, x', y', z);
        }
        RectMaxUnique(input, w, h, d, z, x0, x1, y0, y1, c.0, c.1);
      }
    }
  }

  // ---------------------------------------------------------------------------
  // Forward reduction

  /** Value of output cell j: the maximum of the window of the cell j decodes to. */
  function CellMax(l: Layer, input: seq<real>, j: nat): real
    requires Valid(l) && |input| == InputSize(l) && j < OutputSize(l)
  {
    CoordsInRange(j, OutputWidth(l), OutputHeight(l), l.InputDepth);
    var o := Coords(j, OutputWidth(l), l.InputDepth);
    WindowMax(l, input, o.0, o.1, o.2)
  }

  /** The forward output of one sample, in the flat layout of an OutputWidth x OutputHeight x InputDepth tensor. */
  function Forward(l: Layer, input: seq<real>): (out: seq<real>)
    requires Valid(l) && |input| == InputSize(l)
    ensures |out| == OutputSize(l)
  {
    seq(OutputSize(l), j requires 0 <= j < OutputSize(l) => CellMax(l, input, j))
  }

  /** Output cell (ox, oy, z) of the forward pass is the maximum of its clipped window. */
  lemma ForwardAt(l: Layer, input: seq<real>, ox: nat, oy: nat, z: nat)
    requires Valid(l) && |input| == InputSize(l)
    requires ox < OutputWidth(l) && oy < OutputHeight(l) && z < l.InputDepth
    ensures Idx(ox, oy, z, OutputWidth(l), l.InputDepth) < OutputSize(l)
    ensures Forward(l, input)[Idx(ox, oy, z, OutputWidth(l), l.InputDepth)] == WindowMax(l, input, ox, oy, z)
  {
    IdxInRange(ox, oy, z, OutputWidth(l), OutputHeight(l), l.InputDepth);
    CoordsOfIdx(ox, oy, z, OutputWidth(l), l.InputDepth);
  }

  lemma {:induction false} RowMaxSameRow(t: seq<real>, t': seq<real>, w: nat, h: nat, d: nat, y: nat, z: nat, x0: nat, x1: nat)
    requires |t| == |t'| == w * h * d && x0 < x1 <= w && y < h && z < d
    requires forall x: nat | x0 <= x < x1 :: At(t, w, h, d, x, y, z) == At(t', w, h, d, x, y, z)
    ensures RowMax(t, w, h, d, y, z, x0, x1) == RowMax(t', w, h, d, y, z, x0, x1)
    decreases x1
  {
    if x1 > x0 + 1 {
      RowMaxSameRow(t, t', w, h, d, y, z, x0, x1 - 1);
    }
  }

  lemma {:induction false} RectMaxSameRect(t: seq<real>, t': seq<real>, w: nat, h: nat, d: nat, z: nat, x0: nat, x1: nat, y0: nat, y1: nat)
    requires |t| == |t'| == w * h * d && x0 < x1 <= w && y0 < y1 <= h && z < d
    requires forall x: nat, y: nat | x0 <= x < x1 && y0 <= y < y1 :: At(t, w, h, d, x, y, z) == At(t', w, h, d, x, y, z)
    ensures RectMax(t, w, h, d, z, x0, x1, y0, y1) == RectMax(t', w, h, d, z, x0, x1, y0, y1)
    decreases y1
  {
    RowMaxSameRow(t, t', w, h, d, y1 - 1, z, x0, x1);
    if y1 > y0 + 1 {
      RectMaxSameRect(t, t', w, h, d, z, x0, x1, y0, y1 - 1);
    }
  }

  /** Channels are pooled independently: channel z of the output depends only on channel z of the input. */
  lemma ForwardPerChannel(l: Layer, input: seq<real>, input': seq<real>, z: nat)
    requires Valid(l) && |input| == |input'| == InputSize(l) && z < l.InputDepth
    requires forall x: nat, y: nat | x < l.InputWidth && y < l.InputHeight ::
      At(input, l.InputWidth, l.InputHeight, l.InputDepth, x, y, z) ==
      At(input', l.InputWidth, l.InputHeight, l.InputDepth, x, y, z)
    ensures forall ox: nat, oy: nat | ox < OutputWidth(l) && oy < OutputHeight(l) ::
      Idx(ox, oy, z, OutputWidth(l), l.InputDepth) < OutputSize(l) &&
      Forward(l, input)[Idx(ox, oy, z, OutputWidth(l), l.InputDepth)] ==
      Forward(l, input')[Idx(ox, oy, z, OutputWidth(l), l.InputDepth)]
  {
    forall ox: nat, oy: nat | ox < OutputWidth(l) && oy < OutputHeight(l)
      ensures Idx(ox, oy, z, OutputWidth(l), l.InputDepth) < OutputSize(l) &&
        Forward(l, input)[Idx(ox, oy, z, OutputWidth(l), l.InputDepth)] ==
        Forward(l, input')[Idx(ox, oy, z, OutputWidth(l), l.InputDepth)]
    {
      WindowNonEmpty(ox, l.XSpan, l.InputWidth);
      WindowNonEmpty(oy, l.YSpan, l.InputHeight);
      RectMaxSameRect(input, input', l.InputWidth, l.InputHeight, l.InputDepth, z,
                      WinStart(ox, l.XSpan), WinEnd(ox, l.XSpan, l.InputWidth),
                      WinStart(oy, l.YSpan), WinEnd(oy, l.YSpan, l.InputHeight));
      ForwardAt(l, input, ox, oy, z);
      ForwardAt(l, input', ox, oy, z);
    }
  }

  /** Output cell j selects input cell i: i is a maximum of j's window. */
  predicate SelectsAt(l: Layer, input: seq<real>, j: nat, i: nat)
    requires Valid(l) && |input| == InputSize(l) && j < OutputSize(l)
  {
    CoordsInRange(j, OutputWidth(l), OutputHeight(l), l.InputDepth);
    var o := Coords(j, OutputWidth(l), l.InputDepth);
    IsArgMax(l, input, o.0, o.1, o.2, i)
  }

  /**
   * What a forward call leaves behind for the backward and R passes: its input, its
   * output and, per output cell, the flat offset of the input cell it selected.
   */
  datatype Applied = Applied(Input: seq<real>, Output: seq<real>, Choices: seq<nat>)

  ghost predicate AppliedValid(l: Layer, a: Applied)
  {
    Valid(l) && |a.Input| == InputSize(l) && a.Output == Forward(l, a.Input) &&
    |a.Choices| == OutputSize(l) &&
    forall j: nat | j < |a.Choices| :: SelectsAt(l, a.Input, j, a.Choices[j])
  }

  /** Scans the clipped window of output cell (ox, oy, z), rows then columns, keeping the first maximum seen. */
  method PoolWindow(l: Layer, input: seq<real>, ox: nat, oy: nat, z: nat) returns (best: real, choice: nat)
    requires Valid(l) && |input| == InputSize(l)
    requires ox < OutputWidth(l) && oy < OutputHeight(l) && z < l.InputDepth
    ensures IsArgMax(l, input, ox, oy, z, choice) && best == input[choice]
  {
    var (w, h, d) := (l.InputWidth, l.InputHeight, l.InputDepth);
    var x0, x1 := WinStart(ox, l.XSpan), WinEnd(ox, l.XSpan, w);
    var y0, y1 := WinStart(oy, l.YSpan), WinEnd(oy, l.YSpan, h);
    WindowNonEmpty(ox, l.XSpan, w);
    WindowNonEmpty(oy, l.YSpan, h);
    best := At(input, w, h, d, x0, y0, z);
    var bestX, bestY := x0, y0;
    var y := y0;
    while y < y1
      invariant y0 <= y <= y1
      invariant x0 <= bestX < x1 && y0 <= bestY < y1 && best == At(input, w, h, d, bestX, bestY, z)
      invariant forall x': nat, y': nat | x0 <= x' < x1 && y0 <= y' < y :: At(input, w, h, d, x', y', z) <= best
    {
      var x := x0;
      while x < x1
        invariant x0 <= x <= x1
        invariant x0 <= bestX < x1 && y0 <= bestY < y1 && best == At(input, w, h, d, bestX, bestY, z)
        invariant forall x': nat, y': nat | x0 <= x' < x1 && y0 <= y' < y :: At(input, w, h, d, x', y', z) <= best
        invariant forall x': nat | x0 <= x' < x :: At(input, w, h, d, x', y, z) <= best
      {
        var v := At(input, w, h, d, x, y, z);
        if v > best {
          best := v;
          bestX, bestY := x, y;
        }
        x := x + 1;
      }
      y := y + 1;
    }
    choice := Idx(bestX, bestY, z, w, d);
    RectMaxUnique(input, w, h, d, z, x0, x1, y0, y1, bestX, bestY);
    InWindowCell(l, ox, oy, z, bestX, bestY, z);
  }

  /** The first k cells of a forward output buffer and of its choice buffer are final. */
  ghost predicate Filled(l: Layer, input: seq<real>, out: seq<real>, choices: seq<nat>, k: nat)
    requires Valid(l) && |input| == InputSize(l)
  {
    k <= OutputSize(l) && k <= |out| && k <= |choices| &&
    forall j: nat | j < k :: out[j] == CellMax(l, input, j) && SelectsAt(l, input, j, choices[j])
  }

  lemma FilledStep(l: Layer, input: seq<real>, out: seq<real>, choices: seq<nat>, k: nat, best: real, choice: nat)
    requires Valid(l) && |input| == InputSize(l)
    requires Filled(l, input, out, choices, k) && k < OutputSize(l) && k < |out| && k < |choices|
    requires best == CellMax(l, input, k) && SelectsAt(l, input, k, choice)
    ensures Filled(l, input, out[k := best], choices[k := choice], k + 1)
  {
  }

  /** Fills the output cells of column ox, row oy, every channel, which start at offset k. */
  method PoolChannels(l: Layer, input: seq<real>, ox: nat, oy: nat, out: array<real>, choices: array<nat>, k: nat)
    requires Valid(l) && |input| == InputSize(l) && ox < OutputWidth(l) && oy < OutputHeight(l)
    requires out.Length == choices.Length == OutputSize(l)
    requires k == Idx(ox, oy, 0, OutputWidth(l), l.InputDepth)
    requires Filled(l, input, out[..], choices[..], k)
    modifies out, choices
    ensures Filled(l, input, out[..], choices[..], k + l.InputDepth)
    ensures forall j | 0 <= j < out.Length && !(k <= j < k + l.InputDepth) ::
      out[j] == old(out[j]) && choices[j] == old(choices[j])
  {
    var ow, oh, d := OutputWidth(l), OutputHeight(l), l.InputDepth;
    var z := 0;
    while z < d
      invariant z <= d
      invariant Filled(l, input, out[..], choices[..], k + z)
      invariant forall j | 0 <= j < out.Length && !(k <= j < k + z) ::
        out[j] == old(out[j]) && choices[j] == old(choices[j])
    {
      var best, choice := PoolWindow(l, input, ox, oy, z);
      assert k + z == Idx(ox, oy, z, ow, d);
      IdxInRange(ox, oy, z, ow, oh, d);
      CoordsOfIdx(ox, oy, z, ow, d);
      FilledStep(l, input, out[..], choices[..], k + z, best, choice);
      out[k + z] := best;
      choices[k + z] := choice;
      z := z + 1;
    }
  }

  /** Fills every output cell, walking rows, then columns, with a running output offset. */
  method PoolAll(l: Layer, input: seq<real>, out: array<real>, choices: array<nat>)
    requires Valid(l) && |input| == InputSize(l)
    requires out.Length == choices.Length == OutputSize(l)
    modifies out, choices
    ensures Filled(l, input, out[..], choices[..], OutputSize(l))
  {
    var ow, oh, d := OutputWidth(l), OutputHeight(l), l.InputDepth;
    var k := 0;
    var oy := 0;
    while oy < oh
      invariant oy <= oh && k == Idx(0, oy, 0, ow, d)
      invariant Filled(l, input, out[..], choices[..], k)
    {
      var ox := 0;
      while ox < ow
        invariant ox <= ow && k == Idx(ox, oy, 0, ow, d)
        invariant Filled(l, input, out[..], choices[..], k)
      {
        PoolChannels(l, input, ox, oy, out, choices, k);
        IdxNextColumn(ox, oy, ow, d);
        k := k + d;
        ox := ox + 1;
      }
      IdxNextRow(oy, ow, d);
      oy := oy + 1;
    }
    assert Idx(0, oh, 0, ow, d) == ow * oh * d;
  }

  /** Forward pass: the output tensor holds each window's maximum, and each choice the cell it came from. */
  method Apply(l: Layer, input: seq<real>) returns (r: Result<Applied>)
    requires Valid(l)
    ensures r.Success? <==> |input| == InputSize(l)
    ensures r.Success? ==> r.value.Input == input && AppliedValid(l, r.value)
  {
    if |input| != InputSize(l) {
      return Failure(ShapeMismatch);
    }
    var out := new Tensor3(OutputWidth(l), OutputHeight(l), l.InputDepth);
    var choices := new nat[OutputSize(l)];
    PoolAll(l, input, out.Data, choices);
    var a := Applied(input, out.Data[..], choices[..]);
    forall j: nat | j < OutputSize(l)
      ensures a.Output[j] == Forward(l, input)[j] && SelectsAt(l, input, j, a.Choices[j])
    {
    }
    assert a.Output == Forward(l, input);
    r := Success(a);
  }

  /** Each output cell selected one of its window's maxima, and its output is that maximum. */
  lemma SelectedIsWindowMax(l: Layer, a: Applied, k: nat)
    requires AppliedValid(l, a) && k < OutputSize(l)
    ensures var o := Coords(k, OutputWidth(l), l.InputDepth);
      InWindow(l, o.0, o.1, o.2, a.Choices[k]) && a.Choices[k] < |a.Input| &&
      a.Output[k] == a.Input[a.Choices[k]] &&
      forall j: nat | j < |a.Input| && InWindow(l, o.0, o.1, o.2, j) :: a.Input[j] <= a.Input[a.Choices[k]]
  {
    CoordsInRange(k, OutputWidth(l), OutputHeight(l), l.InputDepth);
    var o := Coords(k, OutputWidth(l), l.InputDepth);
    assert SelectsAt(l, a.Input, k, a.Choices[k]);
    ArgMaxCharacterization(l, a.Input, o.0, o.1, o.2, a.Choices[k]);
  }

  /** With no tie in a window the selection is forced: it is the window's unique maximum. */
  lemma SelectionWithoutTies(l: Layer, a: Applied, k: nat, i: nat)
    requires AppliedValid(l, a) && k < OutputSize(l)
    requires var o := Coords(k, OutputWidth(l), l.InputDepth);
      InWindow(l, o.0, o.1, o.2, i) &&
      forall j: nat | j < |a.Input| && InWindow(l, o.0, o.1, o.2, j) && j != i :: a.Input[j] < a.Input[i]
    ensures a.Choices[k] == i
  {
    SelectedIsWindowMax(l, a, k);
  }

  // ---------------------------------------------------------------------------
  // Reverse-mode routing

  /** Input cell i lies in the window of output cell (x / XSpan, y / YSpan, z), where (x, y, z) are its coordinates. */
  lemma OwnerCell(l: Layer, i: nat)
    requires Valid(l) && i < InputSize(l)
    ensures var c := Coords(i, l.InputWidth, l.InputDepth);
      var k := Idx(c.0 / l.XSpan, c.1 / l.YSpan, c.2, OutputWidth(l), l.InputDepth);
      k < OutputSize(l) && Coords(k, OutputWidth(l), l.InputDepth) == (c.0 / l.XSpan, c.1 / l.YSpan, c.2) &&
      InWindow(l, c.0 / l.XSpan, c.1 / l.YSpan, c.2, i)
  {
    var w, h, d := l.InputWidth, l.InputHeight, l.InputDepth;
    var (ow, oh) := (OutputWidth(l), OutputHeight(l));
    var c := Coords(i, w, d);
    CoordsInRange(i, w, h, d);
    var (ox, oy) := (c.0 / l.XSpan, c.1 / l.YSpan);
    WindowOfCell(c.0, l.XSpan, w);
    WindowOfCell(c.1, l.YSpan, h);
    IdxInRange(ox, oy, c.2, ow, oh, d);
    CoordsOfIdx(ox, oy, c.2, ow, d);
    assert InWindow(l, ox, oy, c.2, i);
  }

  /** The output cell whose window holds input cell i: column x / XSpan, row y / YSpan, same channel. */
  function Owner(l: Layer, i: nat): (k: nat)
    requires Valid(l) && i < InputSize(l)
    ensures k < OutputSize(l)
    ensures var o := Coords(k, OutputWidth(l), l.InputDepth); InWindow(l, o.0, o.1, o.2, i)
  {
    OwnerCell(l, i);
    var c := Coords(i, l.InputWidth, l.InputDepth);
    Idx(c.0 / l.XSpan, c.1 / l.YSpan, c.2, OutputWidth(l), l.InputDepth)
  }

  /** Windows do not overlap: the owner is the only output cell whose window holds i. */
  lemma OwnerUnique(l: Layer, i: nat, k: nat)
    requires Valid(l) && i < InputSize(l) && k < OutputSize(l)
    requires var o := Coords(k, OutputWidth(l), l.InputDepth); InWindow(l, o.0, o.1, o.2, i)
    ensures Owner(l, i) == k
  {
    var o := Coords(k, OutputWidth(l), l.InputDepth);
    var c := Coords(i, l.InputWidth, l.InputDepth);
    assert Owner(l, i) == Idx(o.0, o.1, o.2, OutputWidth(l), l.InputDepth);
  }

  /** Every output cell's choice lies in that cell's window. */
  ghost predicate ChoicesInWindows(l: Layer, choices: seq<nat>)
  {
    Valid(l) && |choices| == OutputSize(l) &&
    forall k: nat | k < |choices| ::
      var o := Coords(k, OutputWidth(l), l.InputDepth); InWindow(l, o.0, o.1, o.2, choices[k])
  }

  lemma AppliedChoicesInWindows(l: Layer, a: Applied)
    requires AppliedValid(l, a)
    ensures ChoicesInWindows(l, a.Choices)
  {
    forall k: nat | k < |a.Choices|
      ensures var o := Coords(k, OutputWidth(l), l.InputDepth); InWindow(l, o.0, o.1, o.2, a.Choices[k])
    {
      assert SelectsAt(l, a.Input, k, a.Choices[k]);
    }
  }

  /** The choice of output cell k is an input cell owned by k. */
  lemma ChoiceOwner(l: Layer, choices: seq<nat>, k: nat)
    requires ChoicesInWindows(l, choices) && k < |choices|
    ensures choices[k] < InputSize(l) && Owner(l, choices[k]) == k
  {
    OwnerUnique(l, choices[k], k);
  }

  /** The owner of input cell (x, y, z) is output cell (x / XSpan, y / YSpan, z). */
  lemma OwnerAt(l: Layer, x: nat, y: nat, z: nat)
    requires Valid(l) && x < l.InputWidth && y < l.InputHeight && z < l.InputDepth
    ensures Idx(x, y, z, l.InputWidth, l.InputDepth) < InputSize(l)
    ensures Owner(l, Idx(x, y, z, l.InputWidth, l.InputDepth)) ==
      Idx(x / l.XSpan, y / l.YSpan, z, OutputWidth(l), l.InputDepth)
  {
    var i := Idx(x, y, z, l.InputWidth, l.InputDepth);
    IdxInRange(x, y, z, l.InputWidth, l.InputHeight, l.InputDepth);
    CoordsOfIdx(x, y, z, l.InputWidth, l.InputDepth);
    assert Coords(i, l.InputWidth, l.InputDepth) == (x, y, z);
  }

  /** Input gradient of one sample: the selected cell of each window gets its window's gradient, every other cell 0. */
  function Backprop(l: Layer, choices: seq<nat>, upstream: seq<real>): (g: seq<real>)
    requires Valid(l) && |choices| == OutputSize(l) && |upstream| == OutputSize(l)
    ensures |g| == InputSize(l)
  {
    seq(InputSize(l), i requires 0 <= i < InputSize(l) =>
      var k := Owner(l, i); if choices[k] == i then upstream[k] else 0.0)
  }

  /**
   * Input cell (x, y, z) gets the gradient of output cell (x / XSpan, y / YSpan, z) if that
   * cell selected it, and exactly 0 otherwise.
   */
  lemma BackpropAt(l: Layer, choices: seq<nat>, upstream: seq<real>, x: nat, y: nat, z: nat)
    requires Valid(l) && |choices| == OutputSize(l) && |upstream| == OutputSize(l)
    requires x < l.InputWidth && y < l.InputHeight && z < l.InputDepth
    ensures Idx(x, y, z, l.InputWidth, l.InputDepth) < InputSize(l)
    ensures Idx(x / l.XSpan, y / l.YSpan, z, OutputWidth(l), l.InputDepth) < OutputSize(l)
    ensures var i := Idx(x, y, z, l.InputWidth, l.InputDepth);
      var k := Idx(x / l.XSpan, y / l.YSpan, z, OutputWidth(l), l.InputDepth);
      Backprop(l, choices, upstream)[i] == if choices[k] == i then upstream[k] else 0.0
  {
    OwnerAt(l, x, y, z);
  }

  /**
   * Routing: the selected cell of every window receives exactly that window's gradient,
   * and a cell no window selected receives exactly 0.
   */
  lemma BackpropRouting(l: Layer, choices: seq<nat>, upstream: seq<real>)
    requires ChoicesInWindows(l, choices) && |upstream| == OutputSize(l)
    ensures forall k: nat | k < |choices| ::
      choices[k] < InputSize(l) && Backprop(l, choices, upstream)[choices[k]] == upstream[k]
    ensures forall i: nat | i < InputSize(l) && (forall k: nat | k < |choices| :: choices[k] != i) ::
      Backprop(l, choices, upstream)[i] == 0.0
  {
    forall k: nat | k < |choices|
      ensures choices[k] < InputSize(l) && Backprop(l, choices, upstream)[choices[k]] == upstream[k]
    {
      ChoiceOwner(l, choices, k);
    }
  }

  /** Inside one window exactly one cell is selected: the window's own choice. */
  lemma OneSelectionPerWindow(l: Layer, choices: seq<nat>, k: nat, i: nat)
    requires ChoicesInWindows(l, choices) && k < |choices|
    requires var o := Coords(k, OutputWidth(l), l.InputDepth); InWindow(l, o.0, o.1, o.2, i)
    ensures (choices[Owner(l, i)] == i) <==> (i == choices[k])
  {
    OwnerUnique(l, i, k);
  }

  /** Marks the input cells that their window selected. */
  function SelectionMask(l: Layer, choices: seq<nat>): (mask: seq<bool>)
    requires Valid(l) && |choices| == OutputSize(l)
    ensures |mask| == InputSize(l)
  {
    seq(InputSize(l), i requires 0 <= i < InputSize(l) => choices[Owner(l, i)] == i)
  }

  /** A cell is marked exactly when some window chose it. */
  lemma SelectionMaskMarksChoices(l: Layer, choices: seq<nat>, i: nat)
    requires ChoicesInWindows(l, choices) && i < InputSize(l)
    ensures SelectionMask(l, choices)[i] <==> exists k: nat :: k < |choices| && choices[k] == i
  {
    if exists k: nat :: k < |choices| && choices[k] == i {
      var k: nat :| k < |choices| && choices[k] == i;
      ChoiceOwner(l, choices, k);
    }
  }

  /**
   * Cell i of a gradient agrees with a mask: a marked cell holds its owner's upstream
   * gradient exactly and an unmarked cell holds exactly 0.
   */
  predicate GradientCellAgrees(l: Layer, mask: seq<bool>, upstream: seq<real>, grad: seq<real>, i: nat)
    requires Valid(l) && |mask| == |grad| == InputSize(l) && |upstream| == OutputSize(l) && i < InputSize(l)
  {
    if mask[i] then grad[i] == upstream[Owner(l, i)] else grad[i] == 0.0
  }

  /** The first n cells of a gradient agree with the mask, checked from the last one back. */
  predicate AgreesBelow(l: Layer, mask: seq<bool>, upstream: seq<real>, grad: seq<real>, n: nat)
    requires Valid(l) && |mask| == |grad| == InputSize(l) && |upstream| == OutputSize(l)
  {
    n == 0 ||
    (AgreesBelow(l, mask, upstream, grad, n - 1) && n - 1 < InputSize(l) &&
     GradientCellAgrees(l, mask, upstream, grad, n - 1))
  }

  lemma {:induction false} AgreesBelowAll(l: Layer, mask: seq<bool>, upstream: seq<real>, grad: seq<real>, n: nat)
    requires Valid(l) && |mask| == |grad| == InputSize(l) && |upstream| == OutputSize(l) && n <= InputSize(l)
    ensures AgreesBelow(l, mask, upstream, grad, n) <==>
      forall i: nat | i < n :: GradientCellAgrees(l, mask, upstream, grad, i)
  {
    if n > 0 {
      AgreesBelowAll(l, mask, upstream, grad, n - 1);
      if forall i: nat | i < n :: GradientCellAgrees(l, mask, upstream, grad, i) {
        assert GradientCellAgrees(l, mask, upstream, grad, n - 1);
      }
    }
  }

  /**
   * One comparison of the walk, at input cell (x, y, z) reached by the running offset i:
   * the offsets it reads lie inside the vectors, the mask offset computed from the
   * coordinates is the running offset, and the verdict stays true exactly when neither
   * failure branch fires for that cell.
   */
  lemma CheckCell(l: Layer, mask: seq<bool>, upstream: seq<real>, grad: seq<real>, x: nat, y: nat, z: nat, i: nat, k: nat)
    requires Valid(l) && |mask| == |grad| == InputSize(l) && |upstream| == OutputSize(l)
    requires x < l.InputWidth && y < l.InputHeight && z < l.InputDepth
    requires i == Idx(x, y, 0, l.InputWidth, l.InputDepth) + z
    requires k == Idx(x / l.XSpan, y / l.YSpan, 0, OutputWidth(l), l.InputDepth) + z
    ensures i == Idx(x, y, z, l.InputWidth, l.InputDepth) && i < InputSize(l)
    ensures k == Idx(x / l.XSpan, y / l.YSpan, z, OutputWidth(l), l.InputDepth) && k < OutputSize(l)
    ensures AgreesBelow(l, mask, upstream, grad, i + 1) ==
      (AgreesBelow(l, mask, upstream, grad, i) &&
       !(!mask[i] && grad[i] != 0.0) && !(mask[i] && grad[i] != upstream[k]))
  {
    OwnerAt(l, x, y, z);
  }

  /**
   * The innermost loop of the walk: the channels of input cell (x, y), from offset idx on;
   * window is the offset of channel 0 of the output cell (x / XSpan, y / YSpan).
   */
  method CheckChannels(l: Layer, mask: seq<bool>, upstream: seq<real>, grad: seq<real>, x: nat, y: nat,
                       window: nat, idx: nat, ok: bool)
    returns (idx': nat, ok': bool)
    requires Valid(l) && |mask| == |grad| == InputSize(l) && |upstream| == OutputSize(l)
    requires x < l.InputWidth && y < l.InputHeight
    requires window == Idx(x / l.XSpan, y / l.YSpan, 0, OutputWidth(l), l.InputDepth)
    requires idx == Idx(x, y, 0, l.InputWidth, l.InputDepth) && ok == AgreesBelow(l, mask, upstream, grad, idx)
    ensures idx' == idx + l.InputDepth && ok' == AgreesBelow(l, mask, upstream, grad, idx')
  {
    idx', ok' := idx, ok;
    for z := 0 to l.InputDepth
      invariant idx' == idx + z
      invariant ok' == AgreesBelow(l, mask, upstream, grad, idx')
    {
      CheckCell(l, mask, upstream, grad, x, y, z, idx', window + z);
      var isChosen := mask[Idx(x, y, z, l.InputWidth, l.InputDepth)];
      var gradValue := grad[idx'];
      var outputGrad := upstream[window + z];
      if !isChosen && gradValue != 0.0 {
        ok' := false;
      } else if isChosen && gradValue != outputGrad {
        ok' := false;
      }
      idx' := idx' + 1;
    }
  }

  /**
   * Walks the gradient the way the backward test does: rows, then columns, then channels,
   * with a running flat offset, comparing each cell against the mask.
   */
  method CheckGradient(l: Layer, mask: seq<bool>, upstream: seq<real>, grad: seq<real>) returns (ok: bool)
    requires Valid(l) && |mask| == |grad| == InputSize(l) && |upstream| == OutputSize(l)
    ensures ok <==> forall i: nat | i < InputSize(l) :: GradientCellAgrees(l, mask, upstream, grad, i)
  {
    var (w, h, d) := (l.InputWidth, l.InputHeight, l.InputDepth);
    ok := true;
    var idx := 0;
    for y := 0 to h
      invariant idx == Idx(0, y, 0, w, d)
      invariant ok == AgreesBelow(l, mask, upstream, grad, idx)
    {
      for x := 0 to w
        invariant idx == Idx(x, y, 0, w, d)
        invariant ok == AgreesBelow(l, mask, upstream, grad, idx)
      {
        var window := Idx(x / l.XSpan, y / l.YSpan, 0, OutputWidth(l), d);
        idx, ok := CheckChannels(l, mask, upstream, grad, x, y, window, idx, ok);
        IdxNextColumn(x, y, w, d);
      }
      IdxNextRow(y, w, d);
    }
    assert idx == InputSize(l);
    AgreesBelowAll(l, mask, upstream, grad, idx);
  }

  /**
   * The check accepts a gradient against the selection mask exactly when it is the
   * routed gradient.
   */
  lemma CheckAcceptsExactlyBackprop(l: Layer, choices: seq<nat>, upstream: seq<real>, grad: seq<real>)
    requires Valid(l) && |choices| == |upstream| == OutputSize(l) && |grad| == InputSize(l)
    ensures (forall i: nat | i < InputSize(l) :: GradientCellAgrees(l, SelectionMask(l, choices), upstream, grad, i))
      <==> grad == Backprop(l, choices, upstream)
  {
    var mask, g := SelectionMask(l, choices), Backprop(l, choices, upstream);
    if forall i: nat | i < InputSize(l) :: GradientCellAgrees(l, mask, upstream, grad, i) {
      forall i | 0 <= i < InputSize(l)
        ensures grad[i] == g[i]
      {
        assert GradientCellAgrees(l, mask, upstream, grad, i);
      }
    }
  }

  /** The input gradient once the first k output cells have been routed. */
  ghost function Routed(l: Layer, choices: seq<nat>, upstream: seq<real>, k: nat): (g: seq<real>)
    requires Valid(l) && |choices| == OutputSize(l) && |upstream| == OutputSize(l)
  {
    seq(InputSize(l), i requires 0 <= i < InputSize(l) =>
      var o := Owner(l, i); if o < k && choices[o] == i then upstream[o] else 0.0)
  }

  lemma RoutedStep(l: Layer, choices: seq<nat>, upstream: seq<real>, k: nat)
    requires ChoicesInWindows(l, choices) && |upstream| == OutputSize(l) && k < OutputSize(l)
    ensures choices[k] < InputSize(l)
    ensures Routed(l, choices, upstream, k)[choices[k]] == 0.0
    ensures Routed(l, choices, upstream, k + 1) == Routed(l, choices, upstream, k)[choices[k] := upstream[k]]
  {
    ChoiceOwner(l, choices, k);
  }

  /** Backward pass: scatters each output cell's gradient onto its selected input cell of a zeroed tensor. */
  method PropagateGradient(l: Layer, a: Applied, upstream: seq<real>) returns (r: Result<seq<real>>)
    requires AppliedValid(l, a)
    ensures r.Success? <==> |upstream| == OutputSize(l)
    ensures r.Success? ==> r.value == Backprop(l, a.Choices, upstream)
  {
    if |upstream| != OutputSize(l) {
      return Failure(ShapeMismatch);
    }
    AppliedChoicesInWindows(l, a);
    var g := new Tensor3(l.InputWidth, l.InputHeight, l.InputDepth);
    assert g.Data[..] == Routed(l, a.Choices, upstream, 0);
    var k := 0;
    while k < |upstream|
      invariant k <= |upstream|
      invariant g.Data[..] == Routed(l, a.Choices, upstream, k)
    {
      RoutedStep(l, a.Choices, upstream, k);
      g.Data[a.Choices[k]] := upstream[k];
      k := k + 1;
    }
    assert Routed(l, a.Choices, upstream, k) == Backprop(l, a.Choices, upstream);
    r := Success(g.Data[..]);
  }

  // ---------------------------------------------------------------------------
  // Forward-mode (R-operator) routing

  /** R-output: each output cell carries the direction value of the input cell its window selected. */
  function RForward(choices: seq<nat>, rInput: seq<real>): (rOut: seq<real>)
    requires forall k | 0 <= k < |choices| :: choices[k] < |rInput|
    ensures |rOut| == |choices|
  {
    seq(|choices|, k requires 0 <= k < |choices| => rInput[choices[k]])
  }

  /** Forward pass together with the R-output for the direction rInput, through the same selections. */
  method ApplyR(l: Layer, input: seq<real>, rInput: seq<real>) returns (r: Result<(Applied, seq<real>)>)
    requires Valid(l)
    ensures r.Success? <==> |input| == InputSize(l) && |rInput| == InputSize(l)
    ensures r.Success? ==>
      var (a, rOut) := r.value;
      a.Input == input && AppliedValid(l, a) &&
      (forall k | 0 <= k < |a.Choices| :: a.Choices[k] < |rInput|) &&
      rOut == RForward(a.Choices, rInput)
  {
    if |input| != InputSize(l) || |rInput| != InputSize(l) {
      return Failure(ShapeMismatch);
    }
    var res := Apply(l, input);
    var a := res.value;
    AppliedChoicesInWindows(l, a);
    forall k | 0 <= k < |a.Choices|
      ensures a.Choices[k] < |rInput|
    {
      ChoiceOwner(l, a.Choices, k);
    }
    var rOut := new Tensor3(OutputWidth(l), OutputHeight(l), l.InputDepth);
    var k := 0;
    while k < |a.Choices|
      invariant k <= |a.Choices|
      invariant forall j | 0 <= j < k :: rOut.Data[j] == rInput[a.Choices[j]]
    {
      rOut.Data[k] := rInput[a.Choices[k]];
      k := k + 1;
    }
    assert rOut.Data[..] == RForward(a.Choices, rInput);
    r := Success((a, rOut.Data[..]));
  }

  /** R-backward pass: the gradient and the R-gradient are routed through the same selections. */
  method PropagateRGradient(l: Layer, a: Applied, upstream: seq<real>, upstreamR: seq<real>)
    returns (r: Result<(seq<real>, seq<real>)>)
    requires AppliedValid(l, a)
    ensures r.Success? <==> |upstream| == OutputSize(l) && |upstreamR| == OutputSize(l)
    ensures r.Success? ==>
      r.value == (Backprop(l, a.Choices, upstream), Backprop(l, a.Choices, upstreamR))
  {
    var g := PropagateGradient(l, a, upstream);
    var gR := PropagateGradient(l, a, upstreamR);
    if g.Failure? || gR.Failure? {
      return Failure(ShapeMismatch);
    }
    r := Success((g.value, gR.value));
  }

  lemma {:induction false} RoutedDot(l: Layer, choices: seq<nat>, upstream: seq<real>, v: seq<real>, k: nat)
    requires ChoicesInWindows(l, choices) && |upstream| == OutputSize(l) && |v| == InputSize(l)
    requires k <= OutputSize(l)
    requires forall j | 0 <= j < |choices| :: choices[j] < |v|
    ensures Dot(v, Routed(l, choices, upstream, k)) == Dot(RForward(choices, v)[..k], upstream[..k])
    decreases k
  {
    if k == 0 {
      DotZeros(v, Routed(l, choices, upstream, 0));
      assert RForward(choices, v)[..0] == [] && upstream[..0] == [];
    } else {
      var rf := RForward(choices, v);
      var before := Routed(l, choices, upstream, k - 1);
      RoutedDot(l, choices, upstream, v, k - 1);
      RoutedStep(l, choices, upstream, k - 1);
      ScatterStep(v, before, rf, upstream, k, choices[k - 1]);
    }
  }

  /**
   * Forward-mode and reverse-mode routing agree: for every direction and every incoming
   * gradient, <RForward(direction), gradient> == <direction, Backprop(gradient)>.
   */
  lemma ForwardReverseAdjoint(l: Layer, choices: seq<nat>, rInput: seq<real>, upstream: seq<real>)
    requires ChoicesInWindows(l, choices) && |rInput| == InputSize(l) && |upstream| == OutputSize(l)
    requires forall k | 0 <= k < |choices| :: choices[k] < |rInput|
    ensures Dot(RForward(choices, rInput), upstream) == Dot(rInput, Backprop(l, choices, upstream))
  {
    RoutedDot(l, choices, upstream, rInput, OutputSize(l));
    assert Routed(l, choices, upstream, OutputSize(l)) == Backprop(l, choices, upstream);
    assert RForward(choices, rInput)[..OutputSize(l)] == RForward(choices, rInput);
    assert upstream[..OutputSize(l)] == upstream;
  }

  /** No gradient is lost or created: the input gradient sums to the incoming gradient. */
  lemma BackpropConserves(l: Layer, choices: seq<nat>, upstream: seq<real>)
    requires ChoicesInWindows(l, choices) && |upstream| == OutputSize(l)
    ensures Sum(Backprop(l, choices, upstream)) == Sum(upstream)
  {
    forall k | 0 <= k < |choices|
      ensures choices[k] < InputSize(l)
    {
      ChoiceOwner(l, choices, k);
    }
    ForwardReverseAdjoint(l, choices, Ones(InputSize(l)), upstream);
    assert RForward(choices, Ones(InputSize(l))) == Ones(OutputSize(l));
    DotOnes(upstream);
    DotOnes(Backprop(l, choices, upstream));
  }
}
