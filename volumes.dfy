/** Label volumes and the voxel-count brain volume.

    A volume is the 3-D array a segmentation or T1 image holds, stored
    flat in C order (the last axis varies fastest), with integer voxel
    values. Voxel sizes are exact reals. */
module Volumes {

  datatype Volume = Volume(nx: nat, ny: nat, nz: nat, data: seq<int>)

  /** The array holds exactly one value per voxel of its shape. */
  predicate Valid(v: Volume) {
    |v.data| == v.nx * v.ny * v.nz
  }

  /** `a * m + b` is a valid flat index of an `n` by `m` array. */
  lemma RowMajorBound(a: nat, b: nat, n: nat, m: nat)
    requires a < n && b < m
    ensures a * m + b < n * m
  {
    var k := n - 1 - a;
    assert n * m == (a + 1) * m + k * m;
    assert (a + 1) * m == a * m + m;
  }

  /** The flat position of voxel `(x, y, z)`. */
  function Index(v: Volume, x: nat, y: nat, z: nat): nat {
    (x * v.ny + y) * v.nz + z
  }

  lemma IndexInRange(v: Volume, x: nat, y: nat, z: nat)
    requires x < v.nx && y < v.ny && z < v.nz
    ensures Index(v, x, y, z) < v.nx * v.ny * v.nz
  {
    RowMajorBound(x, y, v.nx, v.ny);
    RowMajorBound(x * v.ny + y, z, v.nx * v.ny, v.nz);
  }

  /** `matrix[x, y, z]`. */
  function At(v: Volume, x: nat, y: nat, z: nat): int
    requires Valid(v) && x < v.nx && y < v.ny && z < v.nz
  {
    IndexInRange(v, x, y, z);
    v.data[Index(v, x, y, z)]
  }

  // -----------------------------------------------------------------------
  // Counting voxels.

  /** `len(np.where(data == 0)[0])`: how many voxels hold 0. */
  function CountZeros(s: seq<int>): (n: nat)
    ensures n <= |s|
  {
    if s == [] then 0
    else CountZeros(s[..|s| - 1]) + (if s[|s| - 1] == 0 then 1 else 0)
  }

  /** The positions of the voxels that are not 0: the brain mask. */
  function NonZeroIndices(s: seq<int>): set<nat> {
    set i: nat | i < |s| && s[i] != 0
  }

  lemma NonZeroIndicesStep(s: seq<int>)
    requires s != []
    ensures var n := |s| - 1;
      NonZeroIndices(s) == NonZeroIndices(s[..n]) + (if s[n] != 0 then {n} else {})
  {
    var n := |s| - 1;
    forall i: nat | i < n ensures s[..n][i] == s[i] {
    }
  }

  /** Total minus zero voxels is exactly the number of nonzero voxels. */
  lemma {:induction false} NonZeroCount(s: seq<int>)
    ensures |NonZeroIndices(s)| == |s| - CountZeros(s)
  {
    if s != [] {
      var n := |s| - 1;
      NonZeroIndicesStep(s);
      NonZeroCount(s[..n]);
      assert n !in NonZeroIndices(s[..n]);
    }
  }

  /** `mask = total - empty` for a volume. */
  function MaskVoxels(v: Volume): int {
    v.nx * v.ny * v.nz - CountZeros(v.data)
  }

  /** The mask size counts the nonzero voxels and lies between 0 and the
      voxel count. */
  lemma MaskVoxelsSpec(v: Volume)
    requires Valid(v)
    ensures MaskVoxels(v) == |NonZeroIndices(v.data)|
    ensures 0 <= MaskVoxels(v) <= v.nx * v.ny * v.nz
  {
    NonZeroCount(v.data);
  }

  /** calculate_brain_vol_FSmask: the mask size times the voxel volume. */
  function BrainVolumeFSmask(v: Volume, voxDims: real): real {
    MaskVoxels(v) as real * voxDims
  }

  /** The brain volume is the number of nonzero voxels times the voxel
      volume, and never more than the whole field of view. */
  lemma BrainVolumeCountsMask(v: Volume, voxDims: real)
    requires Valid(v)
    ensures BrainVolumeFSmask(v, voxDims) == |NonZeroIndices(v.data)| as real * voxDims
    ensures voxDims >= 0.0 ==>
      0.0 <= BrainVolumeFSmask(v, voxDims) <= (v.nx * v.ny * v.nz) as real * voxDims
  {
    MaskVoxelsSpec(v);
    var m := MaskVoxels(v) as real;
    var t := (v.nx * v.ny * v.nz) as real;
    if voxDims >= 0.0 {
      assert (t - m) * voxDims >= 0.0;
    }
  }

  /** An all-zero volume has volume 0 whatever the voxel size. */
  lemma {:induction false} AllZeroVolume(v: Volume, voxDims: real)
    requires Valid(v)
    requires forall i :: 0 <= i < |v.data| ==> v.data[i] == 0
    ensures BrainVolumeFSmask(v, voxDims) == 0.0
  {
    MaskVoxelsSpec(v);
    assert NonZeroIndices(v.data) == {};
  }

  /** A volume with no zero voxel is brain everywhere. */
  lemma {:induction false} NoZeroVolume(v: Volume, voxDims: real)
    requires Valid(v)
    requires forall i :: 0 <= i < |v.data| ==> v.data[i] != 0
    ensures BrainVolumeFSmask(v, voxDims) == (v.nx * v.ny * v.nz) as real * voxDims
  {
    NoZerosCounted(v.data);
  }

  lemma {:induction false} NoZerosCounted(s: seq<int>)
    requires forall i :: 0 <= i < |s| ==> s[i] != 0
    ensures CountZeros(s) == 0
  {
    if s != [] {
      var n := |s| - 1;
      assert forall i :: 0 <= i < n ==> s[..n][i] == s[i];
      NoZerosCounted(s[..n]);
    }
  }

  /** `header.get_zooms()` for a 3-D image: voxel sizes in millimetres. */
  datatype Zooms = Zooms(dx: real, dy: real, dz: real)

  /** calculate_brain_vol_T1: the mask size times the product of the
      three voxel sizes. */
  function BrainVolumeT1(v: Volume, zooms: Zooms): real {
    MaskVoxels(v) as real * (zooms.dx * zooms.dy * zooms.dz)
  }

  /** The T1 brain volume is the number of nonzero voxels times the
      volume of one voxel, the product of the three zooms. */
  lemma BrainVolumeT1CountsMask(v: Volume, zooms: Zooms)
    requires Valid(v)
    ensures BrainVolumeT1(v, zooms) == |NonZeroIndices(v.data)| as real * (zooms.dx * zooms.dy * zooms.dz)
  {
    MaskVoxelsSpec(v);
  }
}
