/**
 * The dense three-dimensional tensor used by the pooling layer: a flat buffer of
 * width * height * depth values in which cell (x, y, z) lives at offset
 * z + x * depth + y * depth * width (depth fastest, then x, then y).
 */
module Tensors {
  import opened Arith

  /** Flat offset of cell (x, y, z) in a tensor of width w and depth d. */
  function Idx(x: nat, y: nat, z: nat, w: nat, d: nat): nat
  {
    z + x * d + y * d * w
  }

  /** The cell stored at flat offset i; the inverse of Idx. */
  function Coords(i: nat, w: nat, d: nat): (c: (nat, nat, nat))
    requires w > 0 && d > 0
    ensures c.0 < w && c.2 < d
    ensures Idx(c.0, c.1, c.2, w, d) == i
  {
    MixedRadix(i, w, d);
    (i / d % w, i / d / w, i % d)
  }

  /** Every cell inside the shape has its offset inside the buffer. */
  lemma IdxInRange(x: nat, y: nat, z: nat, w: nat, h: nat, d: nat)
    requires x < w && y < h && z < d
    ensures Idx(x, y, z, w, d) < w * h * d
  {
    var m := x + y * w;
    MulMonotone(y + 1, h, w);
    assert m + 1 <= w * h;
    MulMonotone(m + 1, w * h, d);
    assert Idx(x, y, z, w, d) == m * d + z;
  }

  /** In y, x, z order the cells of column x + 1 directly follow those of column x ... */
  lemma IdxNextColumn(x: nat, y: nat, w: nat, d: nat)
    ensures Idx(x + 1, y, 0, w, d) == Idx(x, y, 0, w, d) + d
  {
  }

  /** ... and one past the last column of row y is the first cell of row y + 1. */
  lemma IdxNextRow(y: nat, w: nat, d: nat)
    ensures Idx(w, y, 0, w, d) == Idx(0, y + 1, 0, w, d)
  {
  }

  /** Every offset inside the buffer decodes to a cell inside the shape. */
  lemma CoordsInRange(i: nat, w: nat, h: nat, d: nat)
    requires w > 0 && d > 0 && i < w * h * d
    ensures Coords(i, w, d).1 < h
  {
    DivBelow(i, w * h, d);
    DivBelow(i / d, h, w);
  }

  /** Decoding the offset of a cell gives the cell back. */
  lemma CoordsOfIdx(x: nat, y: nat, z: nat, w: nat, d: nat)
    requires x < w && z < d
    ensures Coords(Idx(x, y, z, w, d), w, d) == (x, y, z)
  {
    var i := Idx(x, y, z, w, d);
    assert i == (x + y * w) * d + z;
    DivModUnique(i, d, x + y * w, z);
    DivModUnique(x + y * w, w, y, x);
  }

  /** Distinct cells of one shape never share an offset. */
  lemma IdxInjective(x: nat, y: nat, z: nat, x': nat, y': nat, z': nat, w: nat, d: nat)
    requires x < w && z < d && x' < w && z' < d
    requires Idx(x, y, z, w, d) == Idx(x', y', z', w, d)
    ensures x == x' && y == y' && z == z'
  {
    CoordsOfIdx(x, y, z, w, d);
    CoordsOfIdx(x', y', z', w, d);
  }

  /** The value of cell (x, y, z) of a flat tensor t of shape (w, h, d). */
  function At(t: seq<real>, w: nat, h: nat, d: nat, x: nat, y: nat, z: nat): real
    requires |t| == w * h * d && x < w && y < h && z < d
  {
    IdxInRange(x, y, z, w, h, d);
    t[Idx(x, y, z, w, d)]
  }

  /** A tensor whose values live in one array that its holders write in place. */
  class Tensor3 {
    const Width: nat
    const Height: nat
    const Depth: nat
    const Data: array<real>

    ghost predicate Valid()
      reads this
    {
      Data.Length == Width * Height * Depth
    }

    /** A zero-filled tensor of the given shape. */
    constructor (w: nat, h: nat, d: nat)
      ensures Valid() && Width == w && Height == h && Depth == d
      ensures fresh(Data)
      ensures forall i | 0 <= i < Data.Length :: Data[i] == 0.0
    {
      Width, Height, Depth := w, h, d;
      Data := new real[w * h * d](_ => 0.0);
    }

    function Get(x: nat, y: nat, z: nat): (v: real)
      requires Valid() && x < Width && y < Height && z < Depth
      reads this, Data
      ensures v == At(Data[..], Width, Height, Depth, x, y, z)
    {
      IdxInRange(x, y, z, Width, Height, Depth);
      Data[Idx(x, y, z, Width, Depth)]
    }

    /**
     * Overwrites the whole buffer offset by offset with the given values; afterwards cell
     * (x, y, z) reads the value at offset Idx(x, y, z).
     */
    method Fill(values: seq<real>)
      requires Valid() && |values| == Data.Length
      modifies Data
      ensures Data[..] == values
      ensures forall x: nat, y: nat, z: nat | x < Width && y < Height && z < Depth ::
        Idx(x, y, z, Width, Depth) < |values| && Get(x, y, z) == values[Idx(x, y, z, Width, Depth)]
    {
      for i := 0 to Data.Length
        invariant Data[..i] == values[..i]
      {
        Data[i] := values[i];
        assert Data[..i + 1] == Data[..i] + [values[i]];
        assert values[..i + 1] == values[..i] + [values[i]];
      }
      assert Data[..] == Data[..Data.Length];
      forall x: nat, y: nat, z: nat | x < Width && y < Height && z < Depth
        ensures Idx(x, y, z, Width, Depth) < |values| && Get(x, y, z) == values[Idx(x, y, z, Width, Depth)]
      {
        IdxInRange(x, y, z, Width, Height, Depth);
      }
    }
  }
}
