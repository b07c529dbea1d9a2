/** The stacking loop of `Save`: `n` square layers of `n * n` pixels each,
    read back from the GPU one depth slice at a time, are copied into the
    flat `n * n * n` pixel array of a 3D texture. */
module SliceStack {

  /** Position of pixel (i, j) in a flat `n * n` layer: inside the layer for
      every pixel of it. */
  function Pixel(i: int, j: int, n: int): (p: int)
    ensures 0 <= i < n && 0 <= j < n ==> 0 <= p < n * n
  {
    // Both branches are `i + j * n`; the first only adds the bound lemma.
    if 0 <= i < n && 0 <= j < n then MulLess(j, n, n, i); i + j * n
    else i + j * n
  }

  /** Position of voxel (i, j, k) in the flat 3D pixel array: inside the
      array for every voxel of the cube. */
  function Flat(i: int, j: int, k: int, n: int): (t: int)
    ensures 0 <= i < n && 0 <= j < n && 0 <= k < n ==> 0 <= t < n * n * n
  {
    // Both branches are the same sum; the first only adds the bound lemmas.
    if 0 <= i < n && 0 <= j < n && 0 <= k < n then
      MulLess(j, n, n, i);
      MulLess(k, n, n * n, i + j * n);
      assert k * n * n == k * (n * n);
      assert n * n * n == n * (n * n);
      i + j * n + k * n * n
    else i + j * n + k * n * n
  }

  /** The positions of every voxel of the cube lie inside the layer and the
      flat array. */
  lemma AllInRange(n: nat)
    ensures forall i, j {:trigger Pixel(i, j, n)} :: 0 <= i < n && 0 <= j < n ==>
      0 <= Pixel(i, j, n) < n * n
    ensures forall i, j, k {:trigger Flat(i, j, k, n)} :: 0 <= i < n && 0 <= j < n && 0 <= k < n ==>
      0 <= Flat(i, j, k, n) < n * n * n
  {
    forall i, j | 0 <= i < n && 0 <= j < n
      ensures 0 <= Pixel(i, j, n) < n * n
    {
      FlatInRange(i, j, 0, n);
    }
    forall i, j, k | 0 <= i < n && 0 <= j < n && 0 <= k < n
      ensures 0 <= Flat(i, j, k, n) < n * n * n
    {
      FlatInRange(i, j, k, n);
    }
  }

  /** Distinct voxels of the cube have distinct positions. */
  lemma AllDistinct(n: nat)
    ensures forall i, j, k, i2, j2, k2 {:trigger Flat(i, j, k, n), Flat(i2, j2, k2, n)} ::
      (0 <= i < n && 0 <= j < n && 0 <= k < n && 0 <= i2 < n && 0 <= j2 < n && 0 <= k2 < n &&
       Flat(i, j, k, n) == Flat(i2, j2, k2, n)) ==> i == i2 && j == j2 && k == k2
  {
    forall i, j, k, i2, j2, k2 |
      0 <= i < n && 0 <= j < n && 0 <= k < n && 0 <= i2 < n && 0 <= j2 < n && 0 <= k2 < n &&
      Flat(i, j, k, n) == Flat(i2, j2, k2, n)
      ensures i == i2 && j == j2 && k == k2
    {
      FlatInjective(i, j, k, i2, j2, k2, n);
    }
  }

  /** The layers laid end to end, first layer first. */
  function Concat<T>(layers: seq<seq<T>>): seq<T> {
    if layers == [] then [] else Concat(layers[..|layers| - 1]) + layers[|layers| - 1]
  }

  /** Layers of equal length `m` concatenate to `|layers| * m` elements, and
      element `p` of layer `k` lands at `k * m + p`. */
  lemma {:induction false} ConcatAt<T>(layers: seq<seq<T>>, m: nat, k: nat, p: nat)
    requires forall q :: 0 <= q < |layers| ==> |layers[q]| == m
    requires k < |layers| && p < m
    ensures |Concat(layers)| == |layers| * m
    ensures k * m + p < |Concat(layers)|
    ensures Concat(layers)[k * m + p] == layers[k][p]
  {
    var last := |layers| - 1;
    var front := layers[..last];
    ConcatLength(layers, m);
    MulLess(k, |layers|, m, p);
    var lengthFront := |Concat(front)|;
    assert lengthFront == last * m by { ConcatLength(front, m); }
    assert Concat(layers) == Concat(front) + layers[last];
    if k < last {
      assert k * m + p < lengthFront by { MulLess(k, last, m, p); }
      ConcatAt(front, m, k, p);
    } else {
      assert k * m + p == lengthFront + p;
    }
  }

  lemma {:induction false} ConcatLength<T>(layers: seq<seq<T>>, m: nat)
    requires forall q :: 0 <= q < |layers| ==> |layers[q]| == m
    ensures |Concat(layers)| == |layers| * m
  {
    if layers != [] {
      var last := |layers| - 1;
      ConcatLength(layers[..last], m);
      assert Concat(layers) == Concat(layers[..last]) + layers[last];
      MulSucc(last, m);
    }
  }

  /** `k * m + p < l * m` whenever `k < l` and `p < m`. */
  lemma MulLess(k: nat, l: nat, m: nat, p: nat)
    requires k < l && p < m
    ensures k * m + p < l * m
  {
    var d := l - k;
    assert l * m == k * m + d * m;
    MulMono(1, d, m);
  }

  lemma MulSucc(a: int, b: int)
    ensures a * b + b == (a + 1) * b
  {
  }

  /** Multiplying by a natural number keeps order. */
  lemma MulMono(a: nat, b: nat, c: nat)
    requires a <= b
    ensures a * c <= b * c
  {
    assert b * c == a * c + (b - a) * c;
  }

  /** Two positions `a + q1 * m` and `b + q2 * m` with offsets below `m`
      coincide only when offsets and multiples coincide. */
  lemma SameBlock(a: nat, b: nat, q1: nat, q2: nat, m: nat)
    requires a < m && b < m && a + q1 * m == b + q2 * m
    ensures q1 == q2 && a == b
  {
    if q1 < q2 {
      MulLess(q1, q2, m, a);
    } else if q2 < q1 {
      MulLess(q2, q1, m, b);
    }
  }

  /** Every voxel of the cube has its own position inside the flat array:
      positions lie in [0, n * n * n) and in the k-th block of `n * n`. */
  lemma FlatInRange(i: nat, j: nat, k: nat, n: nat)
    requires i < n && j < n && k < n
    ensures 0 <= i + j * n < n * n
    ensures Flat(i, j, k, n) == (i + j * n) + k * (n * n)
    ensures 0 <= Flat(i, j, k, n) < n * n * n
  {
    MulLess(j, n, n, i);
    MulLess(k, n, n * n, i + j * n);
    assert k * n * n == k * (n * n);
    assert n * n * n == n * (n * n);
  }

  /** Distinct voxels have distinct positions. */
  lemma FlatInjective(i: nat, j: nat, k: nat, i2: nat, j2: nat, k2: nat, n: nat)
    requires i < n && j < n && k < n && i2 < n && j2 < n && k2 < n
    requires Flat(i, j, k, n) == Flat(i2, j2, k2, n)
    ensures i == i2 && j == j2 && k == k2
  {
    FlatInRange(i, j, k, n);
    FlatInRange(i2, j2, k2, n);
    SameBlock(i + j * n, i2 + j2 * n, k, k2, n * n);
    SameBlock(i, i2, j, j2, n);
  }

  /** A position below `bound * m` splits into a block below `bound` and an
      offset inside it. */
  lemma Split(t: nat, m: nat, bound: nat) returns (q: nat, r: nat)
    requires m > 0 && t < bound * m
    ensures t == r + q * m && r < m && q < bound
  {
    q := t / m;
    r := t % m;
    if q >= bound {
      MulMono(bound, q, m);
    }
  }

  /** Every position of the flat array belongs to some voxel. */
  lemma FlatOnto(t: nat, n: nat) returns (i: nat, j: nat, k: nat)
    requires t < n * n * n
    ensures i < n && j < n && k < n && Flat(i, j, k, n) == t
  {
    var m := n * n;
    assert t < n * m by {
      assert n * n * n == n * m;
    }
    assert n > 0 && m > 0 by {
      if n > 0 {
        MulMono(1, n, n);
      }
    }
    var p;
    k, p := Split(t, m, n);
    j, i := Split(p, n, n);
    assert t == i + j * n + k * m;
    assert Flat(i, j, k, n) == i + j * n + k * m by {
      assert k * m == k * n * n;
    }
  }

  /** In the layers laid end to end, voxel (i, j, k) holds pixel `i + j * n`
      of layer k. */
  lemma ConcatVoxel<T>(layers: seq<seq<T>>, n: nat, i: nat, j: nat, k: nat)
    requires |layers| == n
    requires forall q :: 0 <= q < n ==> |layers[q]| == n * n
    requires i < n && j < n && k < n
    ensures 0 <= Pixel(i, j, n) < n * n && 0 <= Flat(i, j, k, n) < |Concat(layers)|
    ensures Concat(layers)[Flat(i, j, k, n)] == layers[k][Pixel(i, j, n)]
  {
    FlatInRange(i, j, k, n);
    ConcatAt(layers, n * n, k, i + j * n);
  }

  /** A flat array holding every voxel's pixel at the voxel's position is the
      layers laid end to end. */
  lemma PlacedIsConcat<T>(o: seq<T>, layers: seq<seq<T>>, n: nat)
    requires |layers| == n && |o| == n * n * n
    requires forall k :: 0 <= k < n ==> |layers[k]| == n * n
    requires forall i, j, k {:trigger Flat(i, j, k, n)} :: 0 <= i < n && 0 <= j < n && 0 <= k < n ==>
      0 <= Pixel(i, j, n) < n * n && 0 <= Flat(i, j, k, n) < n * n * n &&
      o[Flat(i, j, k, n)] == layers[k][Pixel(i, j, n)]
    ensures o == Concat(layers)
  {
    ConcatLength(layers, n * n);
    assert n * (n * n) == n * n * n;
    forall t | 0 <= t < n * n * n
      ensures o[t] == Concat(layers)[t]
    {
      var i, j, k := FlatOnto(t, n);
      FlatInRange(i, j, k, n);
      ConcatAt(layers, n * n, k, i + j * n);
    }
  }

  /** `Save`'s loop: for each layer k, and each (i, j) inside it, the pixel
      at `i + j * n` of layer k is written to the flat position of voxel
      (i, j, k), and the counter `i_flat` is advanced. Every position is
      written, each by exactly one voxel, so the array ends up holding the
      layers in order and the counter ends at `n * n * n`. */
  method StackSlices<T>(n: nat, layers: seq<seq<T>>, output: array<T>) returns (iFlat: nat)
    requires |layers| == n
    requires forall k :: 0 <= k < n ==> |layers[k]| == n * n
    requires output.Length == n * n * n
    modifies output
    ensures iFlat == n * (n * n)
    ensures output[..] == Concat(layers)
  {
    AllInRange(n);
    iFlat := 0;
    for k := 0 to n
      invariant iFlat == k * (n * n)
      invariant forall i, j, kk {:trigger Flat(i, j, kk, n)} :: 0 <= i < n && 0 <= j < n && 0 <= kk < k ==>
        output[Flat(i, j, kk, n)] == layers[kk][Pixel(i, j, n)]
    {
      var layerPixels := layers[k];
      for i := 0 to n
        invariant iFlat == k * (n * n) + i * n
        invariant forall i', j, kk {:trigger Flat(i', j, kk, n)} :: 0 <= i' < n && 0 <= j < n && 0 <= kk < k ==>
          output[Flat(i', j, kk, n)] == layers[kk][Pixel(i', j, n)]
        invariant forall i', j {:trigger Flat(i', j, k, n)} :: 0 <= i' < i && 0 <= j < n ==>
          output[Flat(i', j, k, n)] == layers[k][Pixel(i', j, n)]
      {
        for j := 0 to n
          invariant iFlat == k * (n * n) + i * n + j
          invariant forall i', j', kk {:trigger Flat(i', j', kk, n)} :: 0 <= i' < n && 0 <= j' < n && 0 <= kk < k ==>
            output[Flat(i', j', kk, n)] == layers[kk][Pixel(i', j', n)]
          invariant forall i', j' {:trigger Flat(i', j', k, n)} :: 0 <= i' < i && 0 <= j' < n ==>
            output[Flat(i', j', k, n)] == layers[k][Pixel(i', j', n)]
          invariant forall j' {:trigger Flat(i, j', k, n)} :: 0 <= j' < j ==>
            output[Flat(i, j', k, n)] == layers[k][Pixel(i, j', n)]
        {
          var col := layerPixels[Pixel(i, j, n)];
          AllDistinct(n);
          output[Flat(i, j, k, n)] := col;
          iFlat := iFlat + 1;
        }
        MulSucc(i, n);
      }
      MulSucc(k, n * n);
    }
    PlacedIsConcat(output[..], layers, n);
  }
}
