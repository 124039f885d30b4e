/**
 * The octree quantizer (`Octree` in src/color/octree.rs): pixels are
 * inserted into a 16-way tree, nodes are folded while there are more
 * leaves than `leaf_limit`, and the leaves' averaged colours are ranked by
 * pixel count.
 *
 * The source keeps the leaf counter and the reduction buckets in global
 * `lazy_static` state; here they are fields of the quantizer object, next
 * to the tree `get_primary_colors` builds.
 */
module OctreeQuantizer {
  import opened Wrappers
  import opened Sequences
  import opened Colors
  import opened HexKey
  import opened Ranking
  import opened OctreeNodes
  import opened OctreeStats
  import opened OctreeRegistry

  class Octree {
    /** The image whose pixels are quantized. */
    const image: Image
    /** The number of leaves above which nodes are folded (`leaf_limit: u32`). */
    const leafLimit: nat
    /** How many colours to return (`primary_color_count`). */
    const primaryColorCount: nat

    /** The tree `get_primary_colors` builds. */
    var root: OctreeNode
    /** `LEAF_COUNT`: the number of leaves created and not folded away. */
    var leafCount: nat
    /** `TO_REDUCE`: per level, the internal nodes that can still be folded. */
    var toReduce: Registry
    /** The pixels inserted so far. */
    ghost var inserted: seq<RgbaColor>

    /** The fields hold a consistent quantizer state. */
    ghost predicate Valid()
      reads this
    {
      Consistent(root, leafCount, inserted, toReduce)
    }

    /** `Octree::new`, with the tree and its bookkeeping in their initial state. */
    constructor(image: Image, leafLimit: nat, primaryColorCount: nat)
      ensures this.image == image && this.leafLimit == leafLimit && this.primaryColorCount == primaryColorCount
      ensures root == NewNode(0) && leafCount == 0 && toReduce == RootRegistry && inserted == []
      ensures Valid()
    {
      this.image := image;
      this.leafLimit := leafLimit;
      this.primaryColorCount := primaryColorCount;
      root := NewNode(0);
      leafCount := 0;
      toReduce := RootRegistry;
      inserted := [];
      NewNodeLeaves(0);
      NewNodeShaped(0);
      RootRegistered();
    }

    /** A fresh tree, as `get_primary_colors` starts from (`OctreeNode::new(0)`). */
    method Reset()
      modifies this
      ensures root == NewNode(0) && leafCount == 0 && toReduce == RootRegistry && inserted == []
      ensures Valid()
    {
      root := NewNode(0);
      leafCount := 0;
      toReduce := RootRegistry;
      inserted := [];
      NewNodeLeaves(0);
      NewNodeShaped(0);
      RootRegistered();
    }

    /** Replaces the tree and its bookkeeping in one step. */
    method SetState(r: OctreeNode, n: nat, reg: Registry, ghost pixels: seq<RgbaColor>)
      modifies this
      ensures root == r && leafCount == n && toReduce == reg && inserted == pixels
    {
      root, leafCount, toReduce, inserted := r, n, reg, pixels;
    }

    /**
     * `root.add_color(pixel, 0)`: the colour goes down its route, the
     * leaves created are counted (`OctreeNode::new` at level 7) and the
     * internal nodes created are listed in the buckets of their levels.
     */
    method AddColor(c: RgbaColor)
      requires Valid()
      modifies this
      ensures Valid()
      ensures inserted == old(inserted) + [c]
      ensures root == OctreeNodes.AddColor(old(root), c, 0).node
      ensures leafCount == old(leafCount) + OctreeNodes.AddColor(old(root), c, 0).newLeaves
      ensures toReduce == Register(old(toReduce), OctreeNodes.AddColor(old(root), c, 0).newInner)
    {
      var node, count, reg := root, leafCount, toReduce;
      ghost var pixels := inserted;
      var added := OctreeNodes.AddColor(node, c, 0);
      AddColorConsistent(node, count, pixels, reg, c);
      reg := RegisterNodes(reg, added.newInner);
      SetState(added.node, count + added.newLeaves, reg, pixels + [c]);
    }

    /**
     * `OctreeNode::reduce_tree`: pick the last node of the deepest
     * non-empty bucket, make it a leaf holding the sums and counts of its
     * children, drop the children and adjust the leaf counter. Returns
     * false where the source's `unwrap` panics, which happens exactly
     * when the whole tree is already one leaf.
     */
    method ReduceTree() returns (ok: bool)
      requires Valid() && leafCount > leafLimit
      modifies this
      ensures Valid()
      ensures inserted == old(inserted)
      ensures ok <==> !old(root).isLeaf
      ensures ok == Target(old(toReduce)).Some?
      ensures !ok ==> root == old(root) && leafCount == old(leafCount) && toReduce == old(toReduce) && leafCount == 1
      ensures ok ==>
        var p := Target(old(toReduce)).value;
        && NodeAt(old(root), p).Some?
        && root == ReplaceAt(old(root), p, Fold(NodeAt(old(root), p).value))
        && leafCount + Occupied(NodeAt(old(root), p).value.children) == old(leafCount) + 1
        && toReduce == Popped(old(toReduce))
        && RegistrySize(toReduce) < RegistrySize(old(toReduce))
    {
      var level: nat := ScanStart;
      while level > 0 && toReduce[level] == []
        invariant level <= ScanStart
        invariant ScanLevel(toReduce, level) == ScanLevel(toReduce, ScanStart)
        decreases level
      {
        level := level - 1;
      }
      var node, count, reg := root, leafCount, toReduce;
      ghost var pixels := inserted;
      RegisteredTarget(node, reg);
      if reg[level] == [] {
        assert LeafList(node) == [node];
        return false;
      }
      var path := reg[level][|reg[level]| - 1];
      ReduceConsistent(node, count, pixels, reg);
      var folded, count' := TakeChildren(NodeAt(node, path).value, count);
      SetState(ReplaceAt(node, path, folded), count' + 1, reg[level := reg[level][..|reg[level]| - 1]], pixels);
      ok := true;
    }

    /**
     * The `while` loop of `get_primary_colors`: fold nodes while there are
     * more leaves than the limit. Stops early only where the source would
     * panic, which needs the whole tree to be one leaf over a limit of 0.
     */
    method ReduceToLimit() returns (ok: bool)
      requires Valid()
      modifies this
      ensures Valid() && inserted == old(inserted)
      ensures ok ==> leafCount <= leafLimit
      ensures !ok ==> leafCount == 1 && leafLimit == 0
    {
      while leafCount > leafLimit
        invariant Valid() && inserted == old(inserted)
        decreases RegistrySize(toReduce)
      {
        ok := ReduceTree();
        if !ok {
          return;
        }
      }
      ok := true;
    }

    /** `colors_stats` from the root into an empty record, then the ranking. */
    method RankLeaves() returns (colors: seq<RgbaColor>)
      requires Valid()
      ensures colors == PrimaryColors(root, primaryColorCount)
    {
      var node := root;
      var record := ColorsStats(node, 0, []);
      RecordOfLeaves(LeafList(node));
      ParsedColorsAscending(record);
      colors := Rank(record, primaryColorCount);
    }

    /**
     * `get_primary_colors`: insert every pixel, folding nodes while there
     * are more leaves than the limit, collect the leaf colours into the
     * record and rank them. Fails only where the source would panic on
     * an empty bucket, which needs a limit of 0.
     */
    method GetPrimaryColors() returns (result: Result<seq<RgbaColor>, QuantizeError>)
      modifies this
      ensures leafLimit > 0 ==> result.Ok?
      ensures result.Err? ==> result.error == NothingToReduce
      ensures result.Ok? ==>
        && OctreeNodes.Valid(root, 0)
        && LeafTotals(LeafList(root)) == SumColors(image.pixels)
        && |LeafList(root)| <= leafLimit
        && result.value == PrimaryColors(root, primaryColorCount)
    {
      Reset();
      var pixels := image.pixels;
      for i := 0 to |pixels|
        invariant Valid() && inserted == pixels[..i] && leafCount <= leafLimit
      {
        PrefixSnoc(pixels, i);
        AddColor(pixels[i]);
        var ok := ReduceToLimit();
        if !ok {
          return Err(NothingToReduce);
        }
      }
      PrefixAll(pixels);
      var colors := RankLeaves();
      result := Ok(colors);
    }
  }

  /** The ranked colours of a valid tree: its leaf record, ranked and cut to `n`. */
  function PrimaryColors(root: OctreeNode, n: nat): seq<RgbaColor>
    requires OctreeNodes.Valid(root, 0)
  {
    ValidLeaves(root, 0);
    RecordOfLeaves(LeafList(root));
    ParsedColorsAscending(CollectStats([], LeafList(root)));
    Rank(CollectStats([], LeafList(root)), n)
  }

  /** A colour inserted into a fresh internal node creates exactly one leaf, at the end of its route. */
  lemma {:induction false} FreshRouteLeaf(c: RgbaColor, level: nat)
    requires level < LeafLevel
    ensures Shaped(NewNode(level), level)
    ensures OctreeNodes.AddColor(NewNode(level), c, level).newLeaves == 1
    decreases LeafLevel - level
  {
    NewNodeShaped(level);
    NewNodeShaped(level + 1);
    assert Descend(NewNode(level), c, level) == NewNode(level + 1);
    if level + 1 < LeafLevel {
      FreshRouteLeaf(c, level + 1);
    }
  }

  /** Black goes to slot 0 below the root and white to slot 15: they part at the root. */
  lemma BlackWhiteSlots()
    ensures ChildIndex(RgbaColor(0, 0, 0, 0), 0) == 0 && ChildIndex(RgbaColor(255, 255, 255, 255), 0) == 15
  {
    assert Pow2(7) == 128;
  }

  /** The buckets as allocated give `reduce_tree` nothing to fold. */
  lemma EmptyRegistryTarget()
    ensures ScanLevel(EmptyRegistry, ScanStart) == 0 && Target(EmptyRegistry) == None
  {
    var reg := EmptyRegistry;
    assert |reg| == Levels;
    assert forall l :: 0 <= l < Levels ==> reg[l] == [];
    ScanLevelSpec(reg, ScanStart);
  }

  /**
   * As written, `TO_REDUCE` is allocated as eight empty buckets and nothing
   * ever pushes onto them, so `reduce_tree` scans down to level 0 and its
   * `unwrap` panics on every call. A black pixel followed by a white one
   * under a leaf limit of 1 already makes that call: the two colours part
   * at the root, so the second insertion leaves two leaves.
   */
  lemma UnfilledBucketsPanic()
    ensures ScanLevel(EmptyRegistry, ScanStart) == 0 && Target(EmptyRegistry) == None
    ensures var black, white := RgbaColor(0, 0, 0, 0), RgbaColor(255, 255, 255, 255);
      var first := OctreeNodes.AddColor(NewNode(0), black, 0);
      && Shaped(first.node, 0)
      && first.newLeaves + OctreeNodes.AddColor(first.node, white, 0).newLeaves == 2
  {
    var black, white := RgbaColor(0, 0, 0, 0), RgbaColor(255, 255, 255, 255);
    EmptyRegistryTarget();
    BlackWhiteSlots();
    FreshRouteLeaf(black, 0);
    FreshRouteLeaf(white, 1);
    AddColorValid(NewNode(0), black, 0);
    var first := OctreeNodes.AddColor(NewNode(0), black, 0);
    ValidShaped(first.node, 0);
    assert first.node.children[15] == None;
    assert Descend(first.node, white, 0) == NewNode(1);
  }
}
