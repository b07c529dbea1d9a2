# MeshToSDF: grid sizing, kernel dispatch and slice stacking

MeshToSDF is a Unity component that turns a triangle mesh into a signed
distance field stored in a 3D texture. The distance arithmetic runs in
compute kernels; the component itself does four deterministic things, and
these are what this project models and proves:

- **Grid-size normalisation** (`OnValidate`): each axis of `textureSize` is
  rounded up to a multiple of the `SphereSDF` kernel's thread-group size
  along it, with C#'s truncating `/` and `%` and unchecked `int`
  multiplication, and then y and z are overwritten with the rounded x, so
  the grid is a cube. Without a compute shader nothing changes.
- **Dispatch group counts** (`Make`, `MakeSphere`): the texture size divided,
  with truncation, by the group sizes of the kernel actually dispatched.
- **Kernel selection** (`Make`): no mesh means the `SphereSDF` path; with a
  mesh, Hollow, Solid and Lines pick `MeshToSDFHollow`, `MeshToSDFSolid` and
  `MeshToSDFLines`, and any other enum value keeps the initial Hollow kernel.
- **Slice stacking** (`Save`): `n` read-back layers of `n * n` pixels are
  copied into the flat `n * n * n` pixel array of a 3D texture at index
  `i + j * n + k * n * n`, while a counter `i_flat` counts the writes.

Files:

- `cs_int.dfy` (module `CSharpInt`): C# `int` range, wrap-around, and the
  truncating division and remainder.
- `grid_size.dfy` (module `GridSize`): `Vector3Int`, thread-group sizes, the
  rounding of one axis, the normalised size, group counts and their lemmas.
- `kernels.dfy` (module `Kernels`): the mode enum, the kernels, their names,
  the selection table and its inverse.
- `mesh_to_sdf.dfy` (module `MeshToSdfComponent`): the component as a class
  whose `OnValidate` updates `textureSize` in place, and whose `Make` and
  `MakeSphere` return the dispatch they issue.
- `slice_stack.dfy` (module `SliceStack`): the stacking loop over an
  `array<T>` of an abstract pixel type, and the index arithmetic lemmas.

What the code does that the `textureSize` tooltip (MeshToSDF/MeshToSDF.cs:32,
a promise to round up to a multiple of the kernel's thread-group sizes) and
the member names would not suggest:

- The rounding of y and z (to `gy` and `gz`) is computed and then
  discarded: after `OnValidate` y and z are multiples of the x group size,
  not necessarily of their own (`NormalizedIgnoresOtherGroupSizes`).
- The rounding uses the `SphereSDF` kernel's group sizes, while `Make`
  divides by the selected mesh kernel's group sizes. A group count is a
  truncating division, not a ceiling, so an axis whose size the dispatched
  group size does not divide is only partly covered, down to zero groups
  (`DispatchTruncatesToZero`). The model follows the code.
- Negative sizes round with C#'s truncation and can overshoot the least
  multiple (`RoundUpNegativeOvershoots`). A size that is not a multiple and
  whose next multiple above lies past `int.MaxValue` wraps around to a
  negative value (`RoundUpWrapsAtTop`). When the group size divides 2^32, as
  powers of two do, the wrapped value is still a multiple and normalising
  again changes nothing (`NormalizedIdempotent`); for other group sizes, such
  as 3, it is not, and normalisation is no longer idempotent
  (`NormalizedNotIdempotentOnWrap`). A size that is already a multiple is
  left alone however close it is to `int.MaxValue`.

## Model

| member | source | states |
|---|---|---|
| `CSharpInt.Wrap32` | MeshToSDF/MeshToSDF.cs:50 | the stored `int` is congruent to the exact product modulo 2^32, and equals it whenever the product fits |
| `CSharpInt.TruncRem` | MeshToSDF/MeshToSDF.cs:49 | C# `%` by a positive group size: sign of the dividend, magnitude below the divisor, zero exactly when the divisor divides |
| `CSharpInt.TruncDiv` | MeshToSDF/MeshToSDF.cs:50 | C# `/` by a positive group size: with the remainder it gives back the dividend; it lies between 0 and the dividend |
| `GridSize.RoundUp` | MeshToSDF/MeshToSDF.cs:49-51 | one axis of `OnValidate`; it changes the axis exactly when the axis is not already a multiple of the group size |
| `GridSize.RoundUpIsMultipleAbove` | MeshToSDF/MeshToSDF.cs:49-51 | for a non-negative request without overflow, the result is a multiple of the group size, at least the request and below request + group size |
| `GridSize.RoundUpIsLeast` | MeshToSDF/MeshToSDF.cs:49-51 | for a non-negative request without overflow, no multiple of the group size at or above the request is smaller than the result: it is the least such multiple |
| `GridSize.RoundUpNegative` | MeshToSDF/MeshToSDF.cs:49-51 | a negative request still rounds to a multiple at or above it, but up to two groups above |
| `GridSize.RoundUpNegativeOvershoots` | MeshToSDF/MeshToSDF.cs:49-51 | -9 with group 4 becomes -4 although -8 is the least multiple at or above -9 |
| `GridSize.RoundUpWrapsAtTop` | MeshToSDF/MeshToSDF.cs:49-51 | `int.MaxValue` rounded to a multiple of 2 wraps to `int.MinValue`, which is still a multiple of 2 |
| `GridSize.Normalized` | MeshToSDF/MeshToSDF.cs:43-61 | the size `OnValidate` leaves: a cube, unchanged in x when x is already a multiple of the x group size |
| `GridSize.NormalizedFixedPoints` | MeshToSDF/MeshToSDF.cs:49-60 | normalisation leaves a size unchanged exactly when it is a cube whose side is a multiple of the x group size |
| `GridSize.WrapKeepsMultiple` | MeshToSDF/MeshToSDF.cs:50 | the unchecked product of a multiple of the group size stays a multiple when the group size divides 2^32 |
| `GridSize.RoundUpMultiple` | MeshToSDF/MeshToSDF.cs:49-51 | the rounded axis is a multiple of the group size for every request whose rounding does not wrap, and for every request when the group size divides 2^32 |
| `GridSize.NormalizedIdempotent` | MeshToSDF/MeshToSDF.cs:49-60 | normalising twice equals normalising once, unless the rounding wrapped with a group size that does not divide 2^32 |
| `GridSize.NormalizedIsCubeOfMultiples` | MeshToSDF/MeshToSDF.cs:32-61 | without overflow, after normalisation x == y == z, a multiple of the x group size at or above the requested x, and less than one group above it for a non-negative request |
| `GridSize.NormalizedIgnoresOtherGroupSizes` | MeshToSDF/MeshToSDF.cs:53-60 | with group sizes (4, 8, 8) a request of 3 becomes a 4-cube, which the y and z group size 8 does not divide |
| `GridSize.NormalizedNotIdempotentOnWrap` | MeshToSDF/MeshToSDF.cs:49-60 | normalising `int.MaxValue` with group 3, which does not divide 2^32, wraps to a negative side, and normalising that changes it again |
| `GridSize.GroupCount` | MeshToSDF/MeshToSDF.cs:113-114 | a group count along one axis is between 0 and the axis size for a non-negative size |
| `GridSize.GroupCounts` | MeshToSDF/MeshToSDF.cs:139-140 | the three group counts of a dispatch are non-negative for a non-negative size |
| `GridSize.GroupCountCovers` | MeshToSDF/MeshToSDF.cs:113-114 | the dispatched groups never run past an axis, leave less than one group uncovered, and cover it exactly iff the group size divides it |
| `GridSize.ExactWhenDivisible` | MeshToSDF/MeshToSDF.cs:113-114 | the truncating division loses nothing when the group size divides the axis |
| `GridSize.NormalizedDispatchExact` | MeshToSDF/MeshToSDF.cs:112-114 | after normalisation, each axis whose dispatch group size equals the rounding x group size is covered exactly, unless the rounding wrapped with a group size that does not divide 2^32 |
| `GridSize.DispatchTruncatesToZero` | MeshToSDF/MeshToSDF.cs:138-140 | with group sizes (4, 8, 8) a request of 3 is dispatched as (1, 0, 0) groups |
| `Kernels.KernelName` | MeshToSDF/MeshToSDF.cs:94-101 | the entry-point name each kernel is looked up by; `FindKernel` on it gives that kernel back, so no two kernels share a name |
| `Kernels.KernelByNameSound` | MeshToSDF/MeshToSDF.cs:94-101 | a kernel found by name carries that name, and exactly the four entry-point names find a kernel |
| `Kernels.SelectKernel` | MeshToSDF/MeshToSDF.cs:67-102 | the sphere kernel is chosen exactly when there is no mesh |
| `Kernels.ServedMode` | MeshToSDF/MeshToSDF.cs:96-101 | only the sphere kernel serves no mode |
| `Kernels.SelectKernelServesMode` | MeshToSDF/MeshToSDF.cs:94-102 | with a mesh, the chosen kernel serves the mode (Hollow for an unnamed value), and distinct named modes get distinct kernels |
| `Kernels.SelectKernelNames` | MeshToSDF/MeshToSDF.cs:94-102 | the names looked up: `SphereSDF` without a mesh, else `MeshToSDFHollow`, `MeshToSDFSolid`, `MeshToSDFLines`, and Hollow's for an unnamed value |
| `MeshToSdfComponent.MeshToSdf.constructor` | MeshToSDF/MeshToSDF.cs:33-39 | a 32-cube texture size, no mesh, mode Hollow, no compute shader |
| `MeshToSdfComponent.MeshToSdf.OnValidate` | MeshToSDF/MeshToSDF.cs:43-61 | no compute shader: `textureSize` unchanged; otherwise it becomes the normalised size for the `SphereSDF` group sizes, nothing else changes |
| `MeshToSdfComponent.MeshToSdf.MakeSphere` | MeshToSDF/MeshToSDF.cs:134-140 | dispatches `SphereSDF` with the texture size divided by that kernel's group sizes |
| `MeshToSdfComponent.MeshToSdf.Make` | MeshToSDF/MeshToSDF.cs:67-114 | dispatches the selected kernel with the texture size divided by that kernel's own group sizes |
| `MeshToSdfComponent.ValidateThenMakeWithoutMesh` | MeshToSDF/MeshToSDF.cs:43-68 | without a mesh, a 30 x 40 x 50 request with 8-cubed groups becomes a 32-cube, and `Make` falls back to the sphere kernel with 4 groups per axis |
| `SliceStack.Pixel` | MeshToSDF/MeshToSDF.cs:194 | the read index `i + j * n` of every pixel of a layer lies inside the layer of `n * n` pixels |
| `SliceStack.Flat` | MeshToSDF/MeshToSDF.cs:196 | the write index `i + j * n + k * n * n` of every voxel of the cube lies inside the `n * n * n` array |
| `SliceStack.FlatInRange` | MeshToSDF/MeshToSDF.cs:194-196 | both indices stay in range: `i + j * n` in [0, n²), `i + j * n + k * n * n` in [0, n³) |
| `SliceStack.FlatInjective` | MeshToSDF/MeshToSDF.cs:196 | distinct voxels write distinct positions |
| `SliceStack.FlatOnto` | MeshToSDF/MeshToSDF.cs:190-196 | every position of the flat array is written by some voxel |
| `SliceStack.ConcatVoxel` | MeshToSDF/MeshToSDF.cs:190-196 | in the depth-ordered layers, voxel (i, j, k) holds pixel `i + j * n` of layer k |
| `SliceStack.PlacedIsConcat` | MeshToSDF/MeshToSDF.cs:186-199 | an array holding each voxel's pixel at its position is exactly the layers in depth order |
| `SliceStack.StackSlices` | MeshToSDF/MeshToSDF.cs:186-199 | the output array becomes the layers in depth order, and `i_flat` ends at n³ |

## Left out

- The compute kernels (`SphereSDF`, `MeshToSDFHollow`, `MeshToSDFSolid`, `MeshToSDFLines`, the slicer's `CSMain`) are not part of this model: their source is not available, so the distance values are not modelled.
- GPU resources (`RenderTexture`, `ComputeBuffer`, `SetData`, `SetBuffer`, `SetInts`, `Dispatch`, `Release`) are foreign calls; `Make` and `MakeSphere` return the kernel and group counts they would dispatch instead.
- `GetKernelThreadGroupSizes` and `FindKernel` are foreign calls: the compute shader is represented only by the group sizes of its four kernels, `Kernels.ComputeShader.GroupsOf` is the field lookup that stands for `GetKernelThreadGroupSizes`, and `KernelByName` stands for a shader that declares all four kernels.
- GroupSize: group sizes are taken to lie in 1 .. `int.MaxValue`; zero would make the C# division throw and larger `uint` values would change sign under the `(int)` cast, and no kernel declares either.
- Vertex normalisation (`Bounds.Encapsulate`, `Div`) is floating point through a Unity library call, including its failure on a mesh without vertices; the mesh is represented only by whether it is set.
- `Copy3DSliceToRenderTexture` and `ConvertFromRenderTexture` are GPU read-back: their results are the `layers` input of `StackSlices`, each of `n * n` pixels; `n` is `textureSize.x` in `Save`.
- SliceStack.StackSlices takes `n` as a natural number: a negative `textureSize.x` makes `Save` throw when it allocates the slice array (MeshToSDF/MeshToSDF.cs:178), which is not modelled. The model's index is an unbounded integer, while the C# index at MeshToSDF/MeshToSDF.cs:196 is an `int`; it cannot wrap, because no array of `n * n * n` pixels that .NET can allocate has a position past `int.MaxValue`.
- `SliceStack.StackSlices`: the pixel type is abstract, so the RHalf colour format is not modelled; the array starts with whatever `GetPixels` returned and ends fully overwritten.
- `AssetDatabase.CreateAsset`, `SetPixels`, `Apply` and the inspector GUI are editor I/O.
- `scale`, `lineRadius` and `resultAssetName` are only passed to the kernels or the editor and play no part in the modelled logic.
- GridSize.RoundUpIsMultipleAbove, GridSize.RoundUpIsLeast and GridSize.NormalizedIsCubeOfMultiples assume that a size which is not a multiple has its next multiple above within `int.MaxValue`; past it the code wraps, which the model computes but these properties do not cover.
- GridSize.NormalizedIdempotent and GridSize.NormalizedDispatchExact assume no wrap only for group sizes that do not divide 2^32; where the group size divides 2^32 they cover the wrapped case too.
- MeshToSdfComponent.MeshToSdf.Make and MeshToSdfComponent.MeshToSdf.MakeSphere require a compute shader: the inspector (MeshToSDF/MeshToSDF.cs:14-18) only calls them on a component whose `compute` is set, and without one the C# code throws at `compute.FindKernel` (MeshToSDF/MeshToSDF.cs:94, :134), a failure the model does not represent.
