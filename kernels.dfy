/** The kernels of the component's compute shader and which one `Make`
    dispatches for a given mesh and mode. */
module Kernels {
  import opened CSharpInt
  import opened GridSize

  datatype Option<T> = None | Some(value: T)

  /** `MeshToSDFMode`. A C# enum field may hold an integer that names none of
      the three members; `Unnamed` stands for such a value (the inspector
      never produces one, code can). */
  datatype Mode = Hollow | Solid | Lines | Unnamed(value: UnnamedValue)

  /** The `int` values no member of `MeshToSDFMode` has: Hollow, Solid and
      Lines are 0, 1 and 2. */
  type UnnamedValue = v: Int32 | v < 0 || 2 < v witness 3

  /** The kernels the component looks up with `FindKernel`. */
  datatype Kernel = SphereSdf | MeshToSdfHollow | MeshToSdfSolid | MeshToSdfLines

  /** The entry-point name each kernel is looked up by; `FindKernel` on that
      name gives the kernel back, so no two kernels share a name. */
  function KernelName(k: Kernel): (name: string)
    ensures KernelByName(name) == Some(k)
  {
    match k
    case SphereSdf => "SphereSDF"
    case MeshToSdfHollow => "MeshToSDFHollow"
    case MeshToSdfSolid => "MeshToSDFSolid"
    case MeshToSdfLines => "MeshToSDFLines"
  }

  /** `FindKernel` on a shader that declares the four kernels: the kernel with
      the given entry-point name, if any. */
  function KernelByName(name: string): Option<Kernel> {
    if name == "SphereSDF" then Some(SphereSdf)
    else if name == "MeshToSDFHollow" then Some(MeshToSdfHollow)
    else if name == "MeshToSDFSolid" then Some(MeshToSdfSolid)
    else if name == "MeshToSDFLines" then Some(MeshToSdfLines)
    else None
  }

  /** A kernel found by name carries that name, and only the four entry-point
      names find one. */
  lemma KernelByNameSound(name: string)
    ensures KernelByName(name).Some? ==> KernelName(KernelByName(name).value) == name
    ensures KernelByName(name).Some? <==>
      name in {"SphereSDF", "MeshToSDFHollow", "MeshToSDFSolid", "MeshToSDFLines"}
  {
  }

  /** A compute shader, seen through what the component asks of it: the
      thread-group sizes `GetKernelThreadGroupSizes` reports for each kernel. */
  datatype ComputeShader = ComputeShader(
    sphere: GroupSizes, hollow: GroupSizes, solid: GroupSizes, lines: GroupSizes)
  {
    /** What `GetKernelThreadGroupSizes` reports for a kernel: the sphere
        kernel's sizes for the kernel serving no mode, otherwise the sizes
        declared for the kernel of the mode it serves. */
    function GroupsOf(k: Kernel): (g: GroupSizes)
      ensures ServedMode(k) == None ==> g == sphere
      ensures ServedMode(k) == Some(Hollow) ==> g == hollow
      ensures ServedMode(k) == Some(Solid) ==> g == solid
      ensures ServedMode(k) == Some(Lines) ==> g == lines
    {
      match k
      case SphereSdf => sphere
      case MeshToSdfHollow => hollow
      case MeshToSdfSolid => solid
      case MeshToSdfLines => lines
    }
  }

  /** The kernel `Make` dispatches: without a mesh it falls back to
      `MakeSphere` and the `SphereSDF` kernel; with one, the mode picks the
      mesh kernel, and a mode naming no member keeps the initial choice,
      `MeshToSDFHollow`. */
  function SelectKernel(hasMesh: bool, mode: Mode): (k: Kernel)
    ensures k == SphereSdf <==> !hasMesh
  {
    if !hasMesh then SphereSdf
    else
      match mode
      case Hollow => MeshToSdfHollow
      case Solid => MeshToSdfSolid
      case Lines => MeshToSdfLines
      case Unnamed(_) => MeshToSdfHollow
  }

  /** The mode a mesh kernel serves; the sphere kernel serves none. */
  function ServedMode(k: Kernel): (m: Option<Mode>)
    ensures m.None? <==> k == SphereSdf
  {
    match k
    case SphereSdf => None
    case MeshToSdfHollow => Some(Hollow)
    case MeshToSdfSolid => Some(Solid)
    case MeshToSdfLines => Some(Lines)
  }

  /** With a mesh, the selected kernel is the one serving the mode (Hollow for
      an unnamed value), and the selected kernel determines the mode back:
      two named modes never share a kernel. */
  lemma SelectKernelServesMode(mode: Mode, other: Mode)
    ensures ServedMode(SelectKernel(true, mode)) == Some(if mode.Unnamed? then Hollow else mode)
    ensures !mode.Unnamed? && !other.Unnamed? ==>
      (SelectKernel(true, mode) == SelectKernel(true, other) <==> mode == other)
  {
  }

  /** The names `Make` passes to `FindKernel` for each case. */
  lemma SelectKernelNames()
    ensures KernelName(SelectKernel(false, Solid)) == "SphereSDF"
    ensures KernelName(SelectKernel(true, Hollow)) == "MeshToSDFHollow"
    ensures KernelName(SelectKernel(true, Solid)) == "MeshToSDFSolid"
    ensures KernelName(SelectKernel(true, Lines)) == "MeshToSDFLines"
    ensures KernelName(SelectKernel(true, Unnamed(7))) == "MeshToSDFHollow"
  {
  }
}
