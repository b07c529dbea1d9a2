/** The `MeshToSDF` component: its inspector fields, the grid-size
    normalisation `OnValidate` applies to them, and the dispatch that `Make`
    and `MakeSphere` issue. */
module MeshToSdfComponent {
  import opened CSharpInt
  import opened GridSize
  import opened Kernels

  /** What `Compute.Dispatch` is asked to run: a kernel and its group counts. */
  datatype Dispatch = Dispatch(kernel: Kernel, groups: Vec3Int)

  class MeshToSdf {
    var textureSize: Vec3Int
    /** Whether the `mesh` field is set; the mesh's geometry only reaches
        compute kernels outside this model. */
    var hasMesh: bool
    var mode: Mode
    var compute: Option<ComputeShader>

    /** The field initialisers: a 32-cube, no mesh, the first mode, no shader. */
    constructor ()
      ensures textureSize == Vec3Int(32, 32, 32)
      ensures !hasMesh && mode == Hollow && compute == None
    {
      textureSize := Vec3Int(32, 32, 32);
      hasMesh := false;
      mode := Hollow;
      compute := None;
    }

    /** Rounds every axis up to a multiple of the `SphereSDF` kernel's group
        size along it, then overwrites y and z with the rounded x. Without a
        compute shader nothing changes. */
    method OnValidate()
      modifies this`textureSize
      ensures compute.None? ==> textureSize == old(textureSize)
      ensures compute.Some? ==> textureSize == Normalized(old(textureSize), compute.value.sphere)
    {
      if compute.None? {
        return;
      }
      var sdfCompute := KernelByName("SphereSDF").value;
      var g := compute.value.GroupsOf(sdfCompute);
      if TruncRem(textureSize.x, g.x) != 0 {
        textureSize := textureSize.(x := Wrap32((1 + TruncDiv(textureSize.x, g.x)) * g.x));
      }
      if TruncRem(textureSize.y, g.y) != 0 {
        textureSize := textureSize.(y := Wrap32((1 + TruncDiv(textureSize.y, g.y)) * g.y));
      }
      if TruncRem(textureSize.z, g.z) != 0 {
        textureSize := textureSize.(z := Wrap32((1 + TruncDiv(textureSize.z, g.z)) * g.z));
      }
      textureSize := textureSize.(y := textureSize.x);
      textureSize := textureSize.(z := textureSize.y);
    }

    /** The sphere path: the `SphereSDF` kernel, dispatched with the texture
        size divided by that kernel's group sizes. */
    method MakeSphere() returns (d: Dispatch)
      requires compute.Some?
      ensures d.kernel == SphereSdf
      ensures d.groups == GroupCounts(textureSize, compute.value.sphere)
    {
      var sdfCompute := KernelByName("SphereSDF").value;
      var g := compute.value.GroupsOf(sdfCompute);
      d := Dispatch(sdfCompute, GroupCounts(textureSize, g));
    }

    /** Without a mesh, falls back to `MakeSphere`. Otherwise starts from the
        Hollow kernel, replaces it by the kernel of the mode, and divides the
        texture size by that kernel's own group sizes. */
    method Make() returns (d: Dispatch)
      requires compute.Some?
      ensures d.kernel == SelectKernel(hasMesh, mode)
      ensures d.groups == GroupCounts(textureSize, compute.value.GroupsOf(d.kernel))
    {
      if !hasMesh {
        d := MakeSphere();
        return;
      }
      var sdfCompute := KernelByName("MeshToSDFHollow").value;
      if mode == Hollow {
        sdfCompute := KernelByName("MeshToSDFHollow").value;
      } else if mode == Solid {
        sdfCompute := KernelByName("MeshToSDFSolid").value;
      } else if mode == Lines {
        sdfCompute := KernelByName("MeshToSDFLines").value;
      }
      var g := compute.value.GroupsOf(sdfCompute);
      d := Dispatch(sdfCompute, GroupCounts(textureSize, g));
    }
  }

  /** A component without a mesh and with a shader whose `SphereSDF` kernel
      has group sizes (8, 8, 8), asked for a 30 x 40 x 50 texture:
      `OnValidate` makes it a 32-cube, and `Make`, falling back to
      `MakeSphere`, then dispatches 4 groups along every axis. */
  method ValidateThenMakeWithoutMesh() returns (d: Dispatch)
    ensures d == Dispatch(SphereSdf, Vec3Int(4, 4, 4))
  {
    var c := new MeshToSdf();
    var eight := GroupSizes(8, 8, 8);
    c.compute := Some(ComputeShader(eight, eight, eight, eight));
    c.textureSize := Vec3Int(30, 40, 50);
    c.OnValidate();
    assert c.textureSize == Vec3Int(32, 32, 32);
    d := c.Make();
  }
}
