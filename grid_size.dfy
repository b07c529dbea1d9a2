/** The grid-size policy of the component: `OnValidate` rounds each axis of
    `textureSize` up to a multiple of the `SphereSDF` kernel's thread-group
    size and then makes every axis equal to the rounded x, and `Make` and
    `MakeSphere` divide the size by the dispatched kernel's group size to
    get the number of groups. */
module GridSize {
  import opened CSharpInt

  /** A thread-group size as `GetKernelThreadGroupSizes` reports it. Zero would
      make the division throw and a value above `int.MaxValue` would turn
      negative under the `(int)` cast; compute kernels never declare either. */
  type GroupSize = g: int | 1 <= g <= 0x7FFF_FFFF witness 1

  /** Unity's `Vector3Int`, a value type of three C# `int`s. */
  datatype Vec3Int = Vec3Int(x: Int32, y: Int32, z: Int32)

  /** The three thread-group sizes of one kernel. */
  datatype GroupSizes = GroupSizes(x: GroupSize, y: GroupSize, z: GroupSize)

  /** One axis of `OnValidate`: when `v % g` is not zero the axis becomes
      `(1 + v / g) * g` (C# truncating operators, unchecked multiply);
      otherwise it is left alone. The result differs from `v` exactly when
      `v` is not already a multiple of `g`. */
  function RoundUp(v: Int32, g: GroupSize): (r: Int32)
    ensures r == v <==> v % g == 0
  {
    if TruncRem(v, g) != 0 then
      var q := TruncDiv(v, g);
      assert (1 + q) * g == v - TruncRem(v, g) + g;
      Wrap32((1 + q) * g)
    else v
  }

  /** The rounding of `v` to a multiple of `g` stays within `int`: either
      `v` is already a multiple, or the next multiple above it fits. */
  predicate NoOverflow(v: Int32, g: GroupSize) {
    TruncRem(v, g) == 0 || v - TruncRem(v, g) + g <= MaxInt32
  }

  /** For a non-negative request that leaves room below `int.MaxValue`,
      `RoundUp` yields a multiple of `g` that is at least the request and
      less than one group above it. */
  lemma RoundUpIsMultipleAbove(v: Int32, g: GroupSize)
    requires 0 <= v && NoOverflow(v, g)
    ensures RoundUp(v, g) % g == 0
    ensures v <= RoundUp(v, g) < v + g
  {
    var rem := TruncRem(v, g);
    if rem != 0 {
      var q := TruncDiv(v, g);
      assert (1 + q) * g == g * (q + 1);
      DivModUnique(g * (q + 1), g, q + 1, 0);
    }
  }

  /** ... and no multiple of `g` at or above the request lies below it, so it
      is the smallest multiple of `g` that is at least `v`. */
  lemma RoundUpIsLeast(v: Int32, g: GroupSize, m: int)
    requires 0 <= v && NoOverflow(v, g)
    requires v <= m && m % g == 0
    ensures RoundUp(v, g) <= m
  {
    var r := RoundUp(v, g);
    RoundUpIsMultipleAbove(v, g);
    if m < r {
      var d := r / g - m / g;
      assert g * d == r - m by {
        assert r == g * (r / g) + r % g;
        assert m == g * (m / g) + m % g;
        assert g * (r / g) - g * (m / g) == g * d;
      }
      assert 0 < g * d < g;
      if d >= 1 {
        MulNonNeg(g, d - 1);
      } else {
        MulNonNeg(g, -d);
      }
    }
  }

  /** Negative requests follow C#'s truncation: the result is still a multiple
      of `g` at or above the request, but may lie more than one group above it. */
  lemma RoundUpNegative(v: Int32, g: GroupSize)
    requires v < 0
    ensures RoundUp(v, g) % g == 0
    ensures v <= RoundUp(v, g) < v + 2 * g
  {
    var rem := TruncRem(v, g);
    if rem != 0 {
      var q := TruncDiv(v, g);
      assert (1 + q) * g == g * (q + 1);
      DivModUnique(g * (q + 1), g, q + 1, 0);
    }
  }

  /** A negative request that is not the least multiple: `-9 % 4` is `-1` in C#,
      `-9 / 4` is `-2`, so the axis becomes `-4` although `-8` is a multiple of
      4 that is at least `-9`. */
  lemma RoundUpNegativeOvershoots()
    ensures RoundUp(-9, 4) == -4
    ensures -9 <= -8 < -4 && -8 % 4 == 0
  {
  }

  /** At the top of the range the unchecked multiply wraps: `int.MaxValue`
      rounded to a multiple of 2 becomes `int.MinValue`. */
  lemma RoundUpWrapsAtTop()
    ensures RoundUp(MaxInt32, 2) == MinInt32
    ensures MinInt32 % 2 == 0
  {
  }

  /** The state `OnValidate` leaves `textureSize` in, given the `SphereSDF`
      kernel's group sizes `g`: the x axis rounded up to a multiple of `g.x`,
      and y and z set to that same value (their own roundings, to `g.y` and
      `g.z`, are overwritten). */
  function Normalized(s: Vec3Int, g: GroupSizes): (r: Vec3Int)
    ensures r.y == r.x && r.z == r.x
    ensures s.x % g.x == 0 ==> r.x == s.x
  {
    var x := RoundUp(s.x, g.x);
    Vec3Int(x, x, x)
  }

  /** `Normalized` leaves a size unchanged exactly when it is already a cube
      whose side is a multiple of `g.x`. */
  lemma NormalizedFixedPoints(s: Vec3Int, g: GroupSizes)
    ensures Normalized(s, g) == s <==> (s.y == s.x && s.z == s.x && s.x % g.x == 0)
  {
  }

  /** A wrapped multiple of `g` is still a multiple of `g` when `g` divides
      2^32, as every power of two up to 2^30 does. */
  lemma WrapKeepsMultiple(p: int, g: GroupSize)
    requires p % g == 0 && TwoTo32 % g == 0
    ensures Wrap32(p) % g == 0
  {
    var r := Wrap32(p);
    var t := (r - p) / TwoTo32;
    var u := TwoTo32 / g;
    var w := p / g;
    assert r - p == TwoTo32 * t;
    assert TwoTo32 == g * u;
    assert p == g * w;
    assert r == g * (w + u * t) by {
      assert TwoTo32 * t == g * (u * t);
    }
    DivModUnique(r, g, w + u * t, 0);
  }

  /** The rounded axis is a multiple of `g` whenever the rounding does not
      wrap, and also when it wraps but `g` divides 2^32. */
  lemma RoundUpMultiple(v: Int32, g: GroupSize)
    requires NoOverflow(v, g) || TwoTo32 % g == 0
    ensures RoundUp(v, g) % g == 0
  {
    if v < 0 {
      RoundUpNegative(v, g);
    } else if NoOverflow(v, g) {
      RoundUpIsMultipleAbove(v, g);
    } else {
      var q := TruncDiv(v, g);
      assert (1 + q) * g == g * (q + 1);
      DivModUnique(g * (q + 1), g, q + 1, 0);
      WrapKeepsMultiple((1 + q) * g, g);
    }
  }

  /** Normalising a second time changes nothing, unless the first rounding
      wrapped with a group size that does not divide 2^32. */
  lemma {:induction false} NormalizedIdempotent(s: Vec3Int, g: GroupSizes)
    requires NoOverflow(s.x, g.x) || TwoTo32 % g.x == 0
    ensures Normalized(Normalized(s, g), g) == Normalized(s, g)
  {
    RoundUpMultiple(s.x, g.x);
    NormalizedFixedPoints(Normalized(s, g), g);
  }

  /** After normalisation the grid is a cube whose side is a multiple of the
      x group size; for a non-negative request it is the smallest such side
      not below the requested x. */
  lemma NormalizedIsCubeOfMultiples(s: Vec3Int, g: GroupSizes)
    requires NoOverflow(s.x, g.x)
    ensures var n := Normalized(s, g);
      n.x == n.y == n.z && n.x % g.x == 0 && s.x <= n.x
    ensures 0 <= s.x ==> Normalized(s, g).x < s.x + g.x
  {
    if s.x >= 0 {
      RoundUpIsMultipleAbove(s.x, g.x);
    } else {
      RoundUpNegative(s.x, g.x);
    }
  }

  /** The y and z axes are multiples of the x group size, not necessarily of
      their own: with group sizes (4, 8, 8) a request of 3 becomes a cube of
      side 4, which 8 does not divide. */
  lemma NormalizedIgnoresOtherGroupSizes()
    ensures Normalized(Vec3Int(3, 3, 3), GroupSizes(4, 8, 8)) == Vec3Int(4, 4, 4)
    ensures 4 % 8 != 0
  {
  }

  /** Where the rounding wraps with a group size that does not divide 2^32,
      normalisation is not idempotent. */
  lemma NormalizedNotIdempotentOnWrap()
    ensures Normalized(Vec3Int(MaxInt32, 0, 0), GroupSizes(3, 1, 1)) == Vec3Int(-2147483647, -2147483647, -2147483647)
    ensures Normalized(Vec3Int(-2147483647, 0, 0), GroupSizes(3, 1, 1)).x == -2147483643
    ensures TwoTo32 % 3 != 0
  {
  }

  /** The group count passed to `Dispatch` for one axis: `size / (int)g`
      with C#'s truncating division. */
  function GroupCount(size: Int32, g: GroupSize): (c: Int32)
    ensures size >= 0 ==> 0 <= c <= size
  {
    TruncDiv(size, g)
  }

  /** The three group counts of `Dispatch(kernel, x / gx, y / gy, z / gz)`. */
  function GroupCounts(s: Vec3Int, g: GroupSizes): (c: Vec3Int)
    ensures s.x >= 0 && s.y >= 0 && s.z >= 0 ==> 0 <= c.x && 0 <= c.y && 0 <= c.z
  {
    Vec3Int(GroupCount(s.x, g.x), GroupCount(s.y, g.y), GroupCount(s.z, g.z))
  }

  /** The groups dispatched along an axis never run past the grid and leave
      less than one group's worth uncovered; they cover it exactly when the
      group size divides the axis. */
  lemma GroupCountCovers(size: Int32, g: GroupSize)
    requires size >= 0
    ensures GroupCount(size, g) * g <= size < GroupCount(size, g) * g + g
    ensures GroupCount(size, g) * g == size <==> size % g == 0
  {
    var c := GroupCount(size, g);
    assert size == g * c + TruncRem(size, g);
  }

  /** Dispatching a normalised grid with a kernel whose group size along an
      axis equals the x group size used for rounding covers that axis exactly,
      unless the rounding wrapped with a group size that does not divide 2^32. */
  lemma NormalizedDispatchExact(s: Vec3Int, r: GroupSizes, d: GroupSizes)
    requires NoOverflow(s.x, r.x) || TwoTo32 % r.x == 0
    ensures var n := Normalized(s, r); var c := GroupCounts(n, d);
      (d.x == r.x ==> c.x * d.x == n.x) &&
      (d.y == r.x ==> c.y * d.y == n.y) &&
      (d.z == r.x ==> c.z * d.z == n.z)
  {
    var n := Normalized(s, r);
    RoundUpMultiple(s.x, r.x);
    if d.x == r.x { ExactWhenDivisible(n.x, d.x); }
    if d.y == r.x { ExactWhenDivisible(n.y, d.y); }
    if d.z == r.x { ExactWhenDivisible(n.z, d.z); }
  }

  /** Truncating division loses nothing when the group size divides the axis. */
  lemma ExactWhenDivisible(size: Int32, g: GroupSize)
    requires size % g == 0
    ensures GroupCount(size, g) * g == size
  {
    var c := GroupCount(size, g);
    assert size == g * c + TruncRem(size, g);
    assert g * c == c * g;
  }

  /** With group sizes (4, 8, 8) for both rounding and dispatch, a request of 3
      is dispatched as one group along x and none along y and z. */
  lemma DispatchTruncatesToZero()
    ensures GroupCounts(Normalized(Vec3Int(3, 3, 3), GroupSizes(4, 8, 8)), GroupSizes(4, 8, 8)) == Vec3Int(1, 0, 0)
  {
  }
}
