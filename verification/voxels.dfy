/** Integer voxel coordinates `(i, j, k)` as stored in a CIFTI brain-model
    axis' voxel table, with the per-axis access the line rasteriser needs. */
module Voxels {

  datatype Axis = X | Y | Z

  datatype Ijk = Ijk(i: int, j: int, k: int) {

    /** `c[a]` for an axis index `a`. */
    function At(a: Axis): int {
      match a
      case X => i
      case Y => j
      case Z => k
    }

    /** `c[a] += d`: only coordinate `a` changes, by exactly `d`. */
    function Shift(a: Axis, d: int): (r: Ijk)
      ensures forall b :: r.At(b) == At(b) + (if a == b then d else 0)
    {
      match a
      case X => Ijk(i + d, j, k)
      case Y => Ijk(i, j + d, k)
      case Z => Ijk(i, j, k + d)
    }
  }

  /** The voxel table's "not a voxel" entry, used for surface rows. */
  const NoVoxel := Ijk(-1, -1, -1)

  function Abs(x: int): nat {
    if x < 0 then -x else x
  }

  function Max3(a: nat, b: nat, c: nat): nat {
    if a >= b && a >= c then a else if b >= c then b else c
  }

  /** Chebyshev distance: the largest coordinate difference. */
  function Cheb(a: Ijk, b: Ijk): nat {
    Max3(Abs(b.i - a.i), Abs(b.j - a.j), Abs(b.k - a.k))
  }

  /** Two coordinates agreeing on every axis are the same voxel. */
  lemma Coordinates(p: Ijk, q: Ijk)
    requires p.At(X) == q.At(X) && p.At(Y) == q.At(Y) && p.At(Z) == q.At(Z)
    ensures p == q
  {
  }
}
