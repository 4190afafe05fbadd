# Max pooling layer

A model of the max-pooling layer of a small Go neural-network library. The behaviour modelled is the one its test file `neuralnet/max_pooling_layer_test.go` pins down.

A layer is configured by five positive integers: `XSpan`, `YSpan`, `InputWidth`, `InputHeight` and `InputDepth`. Its input is a flat vector of `InputWidth * InputHeight * InputDepth` values. Cell `(x, y, z)` sits at offset `z + x * depth + y * depth * width`.

The layer cuts each channel into `XSpan x YSpan` windows. The last window of a row or column is clipped at the edge of the input, so there are `ceil(InputWidth / XSpan) x ceil(InputHeight / YSpan)` windows per channel. The output cell of a window holds that window's maximum.

- **Forward pass.** It records which input cell each window selected.
- **Backward pass.** Each output cell's gradient goes to the cell its window selected, and every other input cell gets exactly 0.
- **Forward-mode (R-operator) pass.** Each output cell carries the direction value of its selected cell.
- **Batching.** A batch is `n` samples laid end to end, and each sample is pooled on its own.

Modules:

- `Arith` (`arith.dfy`): integer facts used by the index proofs.
- `Tensors` (`tensor3.dfy`): the flat index `Idx`, its inverse `Coords`, and the `Tensor3` class. `Tensor3` is a shape plus one `array<real>` that holders write in place (`NewTensor3`, `Get`, and a fill of `Data` value by value).
- `Sums` (`sums.dfy`): sum and dot product of real vectors.
- `MaxPooling` (`pooling.dfy`): the layer, split into three groups.
  - Pure specifications: output sizes, windows, window maxima, `Forward`, `Backprop`, `RForward`.
  - Methods proved against those specifications. `Apply` fills an output tensor and a choice table with nested loops. `PropagateGradient` scatters into a zeroed tensor. `ApplyR` gathers. `CheckGradient` is the test's own row/column/channel walk with a running offset.
  - Lemmas relating all of these.
- `Batching` (`batching.dfy`): batched application.

Values are modelled as `real`. Pooling only selects values and never combines them, and the test compares results with exact equality. The layer's implementation is not part of this model, so what it does with a vector of the wrong length is not known here. Following the library's design, each operation of the model returns a `ShapeMismatch` failure for such a vector.

## Model

| member | source | states |
|---|---|---|
| MaxPooling.Valid | neuralnet/max_pooling_layer_test.go:140-146 | a layer is the five fields `XSpan`, `YSpan`, `InputWidth`, `InputHeight`, `InputDepth`, in that order, and all five are positive |
| MaxPooling.CeilDiv | neuralnet/max_pooling_layer_test.go:26-27 | `r * s >= n` and `r * s - s < n`: the fewest `s`-wide windows that cover `n` cells |
| MaxPooling.CeilDivUnique | neuralnet/max_pooling_layer_test.go:14-27 | any count with those two bounds equals `CeilDiv`, so the two bounds determine the output size |
| MaxPooling.OutputWidth | neuralnet/max_pooling_layer_test.go:26 | `OutputWidth * XSpan >= InputWidth` and `(OutputWidth - 1) * XSpan < InputWidth` |
| MaxPooling.OutputHeight | neuralnet/max_pooling_layer_test.go:27 | `OutputHeight * YSpan >= InputHeight` and `(OutputHeight - 1) * YSpan < InputHeight` |
| MaxPooling.InputSize | neuralnet/max_pooling_layer_test.go:149 | one sample's input has `InputWidth * InputHeight * InputDepth` values, the per-sample length the batch test allocates `n` times |
| MaxPooling.OutputSize | neuralnet/max_pooling_layer_test.go:19-23 | the output has `OutputWidth * OutputHeight * InputDepth` cells: the third output dimension is the input depth |
| MaxPooling.DimensionExamples | neuralnet/max_pooling_layer_test.go:14-23 | layers (3,3,9,9,5), (2,2,9,9,7) and (4,10,30,51,2) give 3x3, 5x5 and 8x6 outputs; layer (3,3,10,11,2) has 32 output cells |
| MaxPooling.WinEnd | neuralnet/max_pooling_layer_test.go:26-27 | window `o` of an axis of `n` cells ends at `min((o + 1) * s, n)`: the end is at most both and equals one of them, so the last window is clipped |
| MaxPooling.WindowNonEmpty | neuralnet/max_pooling_layer_test.go:26-27 | every window `[o * s, min((o + 1) * s, n))` of an output index is non-empty and lies inside the input |
| MaxPooling.WindowCells | neuralnet/max_pooling_layer_test.go:125 | input coordinate `x` lies in window `o` exactly when `x / s == o` (both directions) |
| MaxPooling.WindowOfCell | neuralnet/max_pooling_layer_test.go:125 | `x / s` of every input coordinate is a valid output coordinate |
| MaxPooling.RowMaxBound | neuralnet/max_pooling_layer_test.go:55-66 | every cell of a row segment is at most the segment's maximum |
| MaxPooling.RowMaxAttained | neuralnet/max_pooling_layer_test.go:55-66 | some cell of the segment holds its maximum |
| MaxPooling.RectMaxBound | neuralnet/max_pooling_layer_test.go:55-66 | every cell of a window, at a fixed channel, is at most the window maximum |
| MaxPooling.RectMaxAttained | neuralnet/max_pooling_layer_test.go:55-66 | some cell of the window holds the window maximum |
| MaxPooling.RectMaxUnique | neuralnet/max_pooling_layer_test.go:55-66 | a cell that bounds every cell of the window is the window maximum |
| MaxPooling.WindowMax | neuralnet/max_pooling_layer_test.go:55-66 | the value output cell `(ox, oy, z)` must hold: the maximum of input channel `z` over that cell's clipped window |
| MaxPooling.InWindow | neuralnet/max_pooling_layer_test.go:125 | input offset `i` belongs to the window of output cell `(ox, oy, z)` exactly when it is in range and its cell `(x, y, z')` has `x / XSpan == ox`, `y / YSpan == oy` and `z' == z` |
| MaxPooling.IsArgMax | neuralnet/max_pooling_layer_test.go:95-110 | a valid selection of a window is a cell of that window holding the window maximum |
| MaxPooling.InWindowCell | neuralnet/max_pooling_layer_test.go:123-125 | offset `Idx(x, y, z)` belongs to window `(ox, oy, z)` exactly when `x`, `y` lie in its clipped ranges and the channel matches |
| MaxPooling.ArgMaxCharacterization | neuralnet/max_pooling_layer_test.go:95-110 | a cell is a valid selection of a window exactly when it lies in the window and is at least every cell of the window |
| MaxPooling.Forward | neuralnet/max_pooling_layer_test.go:19-23 | the output has `OutputWidth * OutputHeight * InputDepth` cells: the depth is kept |
| MaxPooling.ForwardAt | neuralnet/max_pooling_layer_test.go:55-66 | output cell `(ox, oy, z)` is the maximum of input channel `z` over `x` in `[ox * XSpan, min((ox + 1) * XSpan, InputWidth))` and `y` in `[oy * YSpan, min((oy + 1) * YSpan, InputHeight))` |
| MaxPooling.ForwardPerChannel | neuralnet/max_pooling_layer_test.go:36-66 | two inputs that agree on channel `z` give the same `Forward` output at every offset `Idx(ox, oy, z)`: output channel `z` depends only on input channel `z` |
| MaxPooling.PoolWindow | neuralnet/max_pooling_layer_test.go:62 | the row/column scan of one window returns a cell of that window holding the window maximum |
| MaxPooling.PoolChannels | neuralnet/max_pooling_layer_test.go:62 | the channel loop fills output cells `k .. k + InputDepth` with their maxima and valid selections, keeps the cells already filled, and leaves every other output and choice cell unchanged, so each output cell is written once |
| MaxPooling.PoolAll | neuralnet/max_pooling_layer_test.go:62 | the row/column loops fill every output cell with its window maximum and a valid selection |
| MaxPooling.AppliedValid | neuralnet/max_pooling_layer_test.go:62 | the result of a forward pass records its input, an output equal to `Forward` of that input, and one valid selection per output cell |
| MaxPooling.Apply | neuralnet/max_pooling_layer_test.go:62-66 | succeeds exactly when the input has `InputSize` values; then the output equals `Forward` and each choice is a maximum of its window |
| MaxPooling.SelectedIsWindowMax | neuralnet/max_pooling_layer_test.go:95-110 | after `Apply`, each chosen cell lies in its window, its value is the output value, and no cell of the window is larger |
| MaxPooling.SelectionWithoutTies | neuralnet/max_pooling_layer_test.go:95-110 | when a cell's value is strictly greater than every other value of its window, `Apply` chose that cell |
| MaxPooling.OwnerCell | neuralnet/max_pooling_layer_test.go:125 | for the cell `(x, y, z)` at an input offset, the offset of output cell `(x / XSpan, y / YSpan, z)` is in range, decodes back to that output cell, and its window holds the input cell |
| MaxPooling.Owner | neuralnet/max_pooling_layer_test.go:125 | every input cell lies in the window of the output cell `(x / XSpan, y / YSpan, z)` |
| MaxPooling.OwnerUnique | neuralnet/max_pooling_layer_test.go:125 | windows do not overlap: no other output cell's window holds the cell |
| MaxPooling.ChoiceOwner | neuralnet/max_pooling_layer_test.go:95-110 | the cell chosen by output cell `k` is owned by `k` |
| MaxPooling.OwnerAt | neuralnet/max_pooling_layer_test.go:123-125 | the owner of offset `Idx(x, y, z)` is offset `Idx(x / XSpan, y / YSpan, z)` of the output |
| MaxPooling.Backprop | neuralnet/max_pooling_layer_test.go:112-117 | the input gradient has one value per input cell |
| MaxPooling.BackpropAt | neuralnet/max_pooling_layer_test.go:119-133 | input cell `(x, y, z)` receives the gradient of output cell `(x / XSpan, y / YSpan, z)` if that cell chose it, and exactly 0 otherwise |
| MaxPooling.BackpropRouting | neuralnet/max_pooling_layer_test.go:127-132 | every chosen cell receives exactly its window's gradient; a cell no window chose receives exactly 0 |
| MaxPooling.OneSelectionPerWindow | neuralnet/max_pooling_layer_test.go:95-110 | inside one window, a cell is marked selected exactly when it is that window's choice |
| MaxPooling.SelectionMask | neuralnet/max_pooling_layer_test.go:95-110 | the selection mask has one flag per input cell |
| MaxPooling.SelectionMaskMarksChoices | neuralnet/max_pooling_layer_test.go:95-110 | a cell is marked exactly when some window chose it |
| MaxPooling.AgreesBelowAll | neuralnet/max_pooling_layer_test.go:119-136 | the running verdict over the first `n` offsets holds exactly when each of those cells agrees with the mask |
| MaxPooling.CheckCell | neuralnet/max_pooling_layer_test.go:123-133 | at cell `(x, y, z)` reached by the running offset, the mask offset `Idx(x, y, z)` equals the running offset, the upstream offset of `(x / XSpan, y / YSpan, z)` is in range, and the verdict stays true exactly when neither failure branch fires |
| MaxPooling.CheckChannels | neuralnet/max_pooling_layer_test.go:122-134 | the channel loop reads the mask by the coordinate formula and the gradient by the running offset, advances the offset by `InputDepth`, and keeps the verdict equal to agreement so far |
| MaxPooling.CheckGradient | neuralnet/max_pooling_layer_test.go:119-136 | the y/x/z walk with a running offset accepts exactly when every marked cell holds its owner's gradient and every unmarked cell holds 0 |
| MaxPooling.CheckAcceptsExactlyBackprop | neuralnet/max_pooling_layer_test.go:119-136 | the walk, given the selection mask, accepts a gradient exactly when it equals `Backprop` |
| MaxPooling.PropagateGradient | neuralnet/max_pooling_layer_test.go:112-117 | succeeds exactly when the upstream gradient has `OutputSize` values; then the scatter into a zeroed tensor equals `Backprop` |
| MaxPooling.RForward | neuralnet/max_pooling_layer_test.go:202-220 | the R-output has one value per output cell |
| MaxPooling.ApplyR | neuralnet/max_pooling_layer_test.go:202-220 | succeeds exactly when input and direction both have `InputSize` values; then it returns a valid forward result and the gather of the direction through its choices |
| MaxPooling.PropagateRGradient | neuralnet/max_pooling_layer_test.go:202-220 | the gradient and the R-gradient are both routed through the forward pass's choices |
| MaxPooling.ForwardReverseAdjoint | neuralnet/max_pooling_layer_test.go:202-220 | forward and reverse passes agree: `<RForward(v), u> == <v, Backprop(u)>` for all directions `v` and upstream gradients `u` |
| MaxPooling.BackpropConserves | neuralnet/max_pooling_layer_test.go:127-132 | routing neither scales nor accumulates: the input gradient sums to the upstream gradient's sum |
| Tensors.Idx | neuralnet/max_pooling_layer_test.go:123 | cell `(x, y, z)` of a layout `w` wide and `d` deep sits at offset `z + x * d + y * d * w` |
| Tensors.Coords | neuralnet/max_pooling_layer_test.go:119-126 | decoding an offset gives a cell inside the width and depth whose offset is the original one |
| Tensors.CoordsOfIdx | neuralnet/max_pooling_layer_test.go:123 | decoding the offset of a cell gives the cell back |
| Tensors.IdxInRange | neuralnet/max_pooling_layer_test.go:119-126 | every cell of a `w x h x d` shape has an offset below `w * h * d` |
| Tensors.CoordsInRange | neuralnet/max_pooling_layer_test.go:119-126 | every offset below `w * h * d` decodes to a cell inside the shape |
| Tensors.IdxInjective | neuralnet/max_pooling_layer_test.go:123 | distinct cells have distinct offsets |
| Tensors.IdxNextColumn | neuralnet/max_pooling_layer_test.go:119-126 | in y, x, z order the cells of column `x + 1` follow those of column `x` directly |
| Tensors.IdxNextRow | neuralnet/max_pooling_layer_test.go:119-126 | the cell after the last column of row `y` is the first cell of row `y + 1` |
| Tensors.Tensor3.constructor | neuralnet/max_pooling_layer_test.go:90 | a fresh tensor has `w * h * d` values, all 0 |
| Tensors.Tensor3.Get | neuralnet/max_pooling_layer_test.go:125 | reads the value at offset `Idx(x, y, z)` |
| Tensors.Tensor3.Fill | neuralnet/max_pooling_layer_test.go:90-93 | after the fill the tensor's data is the given values, and `Get(x, y, z)` reads the value at offset `Idx(x, y, z)` |
| Batching.BatchForward | neuralnet/max_pooling_layer_test.go:148-149 | `n` samples of `InputSize` values give `n * OutputSize` output values |
| Batching.BatchSample | neuralnet/max_pooling_layer_test.go:139-155 | sample `i`'s block of the batched output is the layer's output on sample `i`'s input block alone |
| Batching.BatchApply | neuralnet/max_pooling_layer_test.go:139-155 | succeeds exactly when the batch has `n * InputSize` values; then it returns the per-sample outputs in sample order |

## Left out

- `neuralnet/max_pooling_layer.go`, the layer's implementation, is not part of this model. The behaviour follows what its test pins down.
- The autodiff graph (`Variable`, `Gradient`, `RVector`, `RVariable`) comes from a library outside this repository. The model keeps only the vector-to-vector maps the layer gives it. Adding the input gradient into an existing gradient map is modelled as the vector that gets added. The test's gradient map is built for the input variable (`neuralnet/max_pooling_layer_test.go` line 113), and its exact expectations hold only if that entry starts at zero, so the entry after the call is the vector the model returns.
- The finite-difference R-operator check (`RFuncChecker.FullCheck`) is a floating-point numerical test inside that library. It is stated instead as the exact adjoint identity `ForwardReverseAdjoint`.
- Serialization (`Serialize`, `SerializerType` and the deserializer registry) belongs to an external library. Its test only checks the decoded value's type.
- Random inputs (`rand.Float64`, `rand.NormFloat64`) and `testing.T` reporting. Values that the tests draw at random are parameters here.
- The concrete vectors of the forward and backward tests are not evaluated. The model states the general relations those vectors instantiate.
- The bodies of the `testBatcher` and `testRBatcher` helpers are not part of this model. Batching is modelled as sample-major concatenation with independent samples. The batched gradient and R passes are not modelled separately. Applying the per-sample routing block by block follows the design; the layer's implementation is not part of this model.
- Floating-point details: NaN, signed zero and rounding. Values are exact reals, and pooling only selects them.
- A zero span or a zero dimension. `Valid` requires all five fields to be positive, since a zero span has no ceiling division.
- MaxPooling.PoolWindow: breaking ties between equal maxima is not promised. The scan keeps the first maximum, using strict `>`, but contracts only require the chosen cell to attain the maximum. `SelectionWithoutTies` pins the choice when the maximum is unique.
- MaxPooling.Apply: a wrong-length input returns a `ShapeMismatch` failure. The layer's implementation is not part of this model, so this follows the design and not observed behaviour.
- MaxPooling.PropagateGradient: a wrong-length upstream gradient returns a `ShapeMismatch` failure; this follows the design, since the implementation is not part of this model.
- MaxPooling.PropagateGradient: the upstream gradient is an immutable sequence. The backward test passes a copy of it, which suggests the implementation may overwrite that buffer in place; such overwriting is not modelled.
- MaxPooling.ApplyR: a wrong-length input or direction returns a `ShapeMismatch` failure; this follows the design, since the implementation is not part of this model.
- MaxPooling.PropagateRGradient: a wrong-length gradient or R-gradient returns a `ShapeMismatch` failure; this follows the design, since the implementation is not part of this model.
- Batching.BatchApply: a batch whose length is not `n * InputSize` returns a `ShapeMismatch` failure; this follows the design, since the implementation is not part of this model.
