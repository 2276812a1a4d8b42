/**
 * Combining labelled regions into one binary mask: a voxel of the output
 * is 1 when its label is one of the requested region values and 0
 * otherwise, on the input's grid and with the input's affine.
 */
module RoiCombination {

  /** An image in memory: its dimensions, its voxel values in storage order, and its voxel-to-world affine. */
  datatype Image<T> = Image(shape: seq<nat>, voxels: seq<T>, affine: seq<seq<real>>)

  /** The number of voxels of an image of the given dimensions. */
  function Size(shape: seq<nat>): nat
  {
    if shape == [] then 1 else shape[0] * Size(shape[1..])
  }

  predicate WellFormed<T>(img: Image<T>)
  {
    |img.voxels| == Size(img.shape)
  }

  /** The membership test `np.isin` makes for one voxel: a scan of the requested values for an equal one. */
  function IsIn(v: int, regions: seq<int>): (found: bool)
    ensures found <==> v in regions
  {
    regions != [] && (regions[0] == v || IsIn(v, regions[1..]))
  }

  /**
   * `np.isin(labels, regions).astype(int)`, placed in an image with the
   * input's dimensions and affine.
   */
  function CombineMask(img: Image<int>, regions: seq<int>): (out: Image<int>)
    ensures out.shape == img.shape && out.affine == img.affine
    ensures |out.voxels| == |img.voxels|
    ensures WellFormed(img) ==> WellFormed(out)
    ensures forall i :: 0 <= i < |img.voxels| ==> 0 <= out.voxels[i] <= 1
    ensures forall i :: 0 <= i < |img.voxels| ==> (out.voxels[i] == 1 <==> img.voxels[i] in regions)
  {
    Image(img.shape,
          seq(|img.voxels|, i requires 0 <= i < |img.voxels| => if IsIn(img.voxels[i], regions) then 1 else 0),
          img.affine)
  }

  /** The voxelwise OR of two 0/1 images on the same grid. */
  function Or(a: Image<int>, b: Image<int>): (r: Image<int>)
    requires |a.voxels| == |b.voxels|
    ensures r.shape == a.shape && r.affine == a.affine && |r.voxels| == |a.voxels|
  {
    Image(a.shape,
          seq(|a.voxels|, i requires 0 <= i < |a.voxels| => if a.voxels[i] != 0 || b.voxels[i] != 0 then 1 else 0),
          a.affine)
  }

  /** The image with every voxel 0. */
  function Zeros(img: Image<int>): (r: Image<int>)
    ensures r.shape == img.shape && r.affine == img.affine && |r.voxels| == |img.voxels|
  {
    Image(img.shape, seq(|img.voxels|, _ => 0), img.affine)
  }

  /** The single-region masks of the requested values, ORed together one after another. */
  function OrOfSingles(img: Image<int>, regions: seq<int>): (r: Image<int>)
    ensures r.shape == img.shape && r.affine == img.affine && |r.voxels| == |img.voxels|
  {
    if regions == [] then Zeros(img)
    else Or(OrOfSingles(img, regions[..|regions| - 1]), CombineMask(img, [regions[|regions| - 1]]))
  }

  /** The mask depends only on the set of requested values: reordering or repeating them changes nothing. */
  lemma SameValuesSameMask(img: Image<int>, regions1: seq<int>, regions2: seq<int>)
    requires forall v :: v in regions1 ==> v in regions2
    requires forall v :: v in regions2 ==> v in regions1
    ensures CombineMask(img, regions1) == CombineMask(img, regions2)
  {
    var a, b := CombineMask(img, regions1), CombineMask(img, regions2);
    assert forall i :: 0 <= i < |img.voxels| ==> a.voxels[i] == b.voxels[i];
  }

  /** Requesting two lists of values gives the OR of their masks. */
  lemma UnionOfLists(img: Image<int>, regions1: seq<int>, regions2: seq<int>)
    ensures CombineMask(img, regions1 + regions2) == Or(CombineMask(img, regions1), CombineMask(img, regions2))
  {
    var u := CombineMask(img, regions1 + regions2);
    var o := Or(CombineMask(img, regions1), CombineMask(img, regions2));
    assert forall i :: 0 <= i < |img.voxels| ==> u.voxels[i] == o.voxels[i];
  }

  /** The mask for a list of regions is the voxelwise OR of the single-region masks. */
  lemma {:induction false} MaskIsOrOfSingles(img: Image<int>, regions: seq<int>)
    ensures CombineMask(img, regions) == OrOfSingles(img, regions)
  {
    if regions == [] {
      var c := CombineMask(img, regions);
      assert forall i :: 0 <= i < |img.voxels| ==> c.voxels[i] == 0;
    } else {
      var init := regions[..|regions| - 1];
      MaskIsOrOfSingles(img, init);
      assert regions == init + [regions[|regions| - 1]];
      UnionOfLists(img, init, [regions[|regions| - 1]]);
    }
  }

  /**
   * A requested value that labels no voxel is accepted silently and adds
   * no voxel to the mask.
   */
  lemma AbsentValueIgnored(img: Image<int>, regions: seq<int>, absent: int)
    requires absent !in img.voxels
    ensures CombineMask(img, regions + [absent]) == CombineMask(img, regions)
  {
    var a, b := CombineMask(img, regions + [absent]), CombineMask(img, regions);
    assert forall i :: 0 <= i < |img.voxels| ==> a.voxels[i] == b.voxels[i];
  }

  /**
   * Regions 1001, 1002 and 1003, requested in any order, mark exactly the
   * voxels holding those labels.
   */
  lemma ExampleThreeRegions(affine: seq<seq<real>>)
    ensures var img := Image([5, 1, 1], [1001, 5, 1003, 1002, 0], affine);
      && CombineMask(img, [1001, 1002, 1003]).voxels == [1, 0, 1, 1, 0]
      && CombineMask(img, [1003, 1001, 1002]) == CombineMask(img, [1001, 1002, 1003])
  {
    var img := Image([5, 1, 1], [1001, 5, 1003, 1002, 0], affine);
    var c := CombineMask(img, [1001, 1002, 1003]);
    assert c.voxels[0] == 1 && c.voxels[1] == 0 && c.voxels[2] == 1 && c.voxels[3] == 1 && c.voxels[4] == 0;
    FiveVoxels(c.voxels);
    SameValuesSameMask(img, [1003, 1001, 1002], [1001, 1002, 1003]);
  }

  lemma FiveVoxels(s: seq<int>)
    requires |s| == 5
    ensures s == [s[0], s[1], s[2], s[3], s[4]]
  {
  }
}
