/**
 * Batched application: n samples of the layer's input shape laid end to end in one flat
 * vector (sample-major), each pooled on its own.
 */
module Batching {
  import opened Arith
  import opened MaxPooling

  /** The forward outputs of the n samples of a batch, in sample order. */
  function BatchForward(l: Layer, input: seq<real>, n: nat): (out: seq<real>)
    requires Valid(l) && |input| == n * InputSize(l)
    ensures |out| == n * OutputSize(l)
    decreases n
  {
    if n == 0 then []
    else
      BlockBounds(n - 1, n, InputSize(l));
      BlockBounds(n - 1, n, OutputSize(l));
      var s := (n - 1) * InputSize(l);
      BatchForward(l, input[..s], n - 1) + Forward(l, input[s..])
  }

  /** Sizes of the blocks of a batch: block i ends no later than block n - 1 starts, and block n - 1 ends the batch. */
  lemma BlockBounds(i: nat, n: nat, m: nat)
    requires i < n
    ensures i * m + m == (i + 1) * m <= n * m
    ensures (n - 1) * m + m == n * m
    ensures i < n - 1 ==> (i + 1) * m <= (n - 1) * m
  {
    MulMonotone(i + 1, n, m);
    if i < n - 1 {
      MulMonotone(i + 1, n - 1, m);
    }
  }

  /** Block i (counting from 0) of a sequence cut into blocks of m entries. */
  function Block(s: seq<real>, i: nat, m: nat): (b: seq<real>)
    requires (i + 1) * m <= |s|
    ensures |b| == m
    ensures forall k | 0 <= k < m :: b[k] == s[i * m + k]
  {
    MulMonotone(i, i + 1, m);
    s[i * m..(i + 1) * m]
  }

  /** Block i of n blocks of size m is block i of the first n - 1 blocks, or the last block. */
  lemma BlockOfConcat(prefix: seq<real>, last: seq<real>, i: nat, n: nat, m: nat)
    requires i < n && |prefix| == (n - 1) * m && |last| == m
    ensures (i + 1) * m <= |prefix + last|
    ensures i < n - 1 ==> (i + 1) * m <= |prefix| && Block(prefix + last, i, m) == Block(prefix, i, m)
    ensures i == n - 1 ==> Block(prefix + last, i, m) == last
  {
    BlockBounds(i, n, m);
  }

  /** Block i of a prefix holding it is block i of the whole sequence. */
  lemma BlockOfPrefix(s: seq<real>, p: nat, i: nat, m: nat)
    requires (i + 1) * m <= p <= |s|
    ensures Block(s[..p], i, m) == Block(s, i, m)
  {
  }

  /** The last of n blocks is everything after the first n - 1. */
  lemma LastBlock(s: seq<real>, n: nat, m: nat)
    requires n > 0 && |s| == n * m
    ensures (n - 1) * m <= |s| && Block(s, n - 1, m) == s[(n - 1) * m..]
  {
    BlockBounds(n - 1, n, m);
  }

  /** Sample i's slice of the batched output is the forward output of sample i's input slice alone. */
  lemma {:induction false} BatchSample(l: Layer, input: seq<real>, n: nat, i: nat)
    requires Valid(l) && |input| == n * InputSize(l) && i < n
    ensures (i + 1) * InputSize(l) <= |input| && (i + 1) * OutputSize(l) <= n * OutputSize(l)
    ensures Block(BatchForward(l, input, n), i, OutputSize(l)) == Forward(l, Block(input, i, InputSize(l)))
    decreases n
  {
    var (inSize, outSize) := (InputSize(l), OutputSize(l));
    BlockBounds(i, n, inSize);
    BlockBounds(i, n, outSize);
    var s := (n - 1) * inSize;
    var prefix, last := BatchForward(l, input[..s], n - 1), Forward(l, input[s..]);
    assert BatchForward(l, input, n) == prefix + last;
    BlockOfConcat(prefix, last, i, n, outSize);
    if i == n - 1 {
      LastBlock(input, n, inSize);
    } else {
      BatchSample(l, input[..s], n - 1, i);
      BlockOfPrefix(input, s, i, inSize);
    }
  }

  /** Pools every sample of the batch in turn and concatenates the outputs. */
  method BatchApply(l: Layer, input: seq<real>, n: nat) returns (r: Result<seq<real>>)
    requires Valid(l)
    ensures r.Success? <==> |input| == n * InputSize(l)
    ensures r.Success? ==> r.value == BatchForward(l, input, n)
  {
    if |input| != n * InputSize(l) {
      return Failure(ShapeMismatch);
    }
    var size := InputSize(l);
    var out := [];
    var s := 0;
    while s < n
      invariant s <= n && s * size <= |input|
      invariant out == BatchForward(l, input[..s * size], s)
    {
      MulMonotone(s + 1, n, size);
      var sample := input[s * size..(s + 1) * size];
      var res := Apply(l, sample);
      assert input[..(s + 1) * size][..s * size] == input[..s * size];
      assert input[..(s + 1) * size][s * size..] == sample;
      out := out + res.value.Output;
      s := s + 1;
    }
    assert input[..n * size] == input;
    r := Success(out);
  }
}
