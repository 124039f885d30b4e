/**
 * The reduction buckets of the octree quantizer (`TO_REDUCE` in
 * src/color/octree.rs): per level, the internal nodes `reduce_tree` may
 * fold, and the consistency of the quantizer's state with its tree.
 */
module OctreeRegistry {
  import opened Wrappers
  import opened Sequences
  import opened Colors
  import opened OctreeNodes

  /** One reduction bucket per level, 0 to 7 (`vec![vec![]; 8]`). */
  const Levels: nat := 8

  /** The deepest level whose nodes have children, where `reduce_tree` starts looking. */
  const ScanStart: nat := 6

  /** For each level, the paths from the root of the internal nodes waiting to be folded. */
  type Registry = seq<seq<seq<nat>>>

  /** The buckets as the source allocates them. */
  const EmptyRegistry: Registry := seq(Levels, _ => [])

  /** The buckets of a fresh tree: its root, an internal node at level 0. */
  const RootRegistry: Registry := [[[]]] + seq(Levels - 1, _ => [])

  /** Registers an internal node in the bucket of its depth (a node deeper than the buckets is dropped). */
  function Push(reg: Registry, p: seq<nat>): (reg': Registry)
    ensures |reg'| == |reg|
  {
    if |p| < |reg| then reg[|p| := reg[|p|] + [p]] else reg
  }

  /** Registers a run of internal nodes in order. */
  function Register(reg: Registry, ps: seq<seq<nat>>): (reg': Registry)
    ensures |reg'| == |reg|
  {
    if ps == [] then reg else Push(Register(reg, ps[..|ps| - 1]), ps[|ps| - 1])
  }

  /** The number of registered paths. */
  function RegistrySize(reg: Registry): nat
  {
    if reg == [] then 0 else RegistrySize(reg[..|reg| - 1]) + |reg[|reg| - 1]|
  }

  lemma {:induction false} RegistrySizeUpdate(reg: Registry, l: nat, s: seq<seq<nat>>)
    requires l < |reg|
    ensures RegistrySize(reg[l := s]) + |reg[l]| == RegistrySize(reg) + |s|
    decreases |reg|
  {
    var last := |reg| - 1;
    if l < last {
      assert reg[l := s][..last] == reg[..last][l := s];
      RegistrySizeUpdate(reg[..last], l, s);
    } else {
      assert reg[l := s][..last] == reg[..last];
    }
  }

  /**
   * The level `reduce_tree` settles on: going down from `level`, the first
   * non-empty bucket, stopping at level 0 whether or not it is empty.
   */
  function ScanLevel(reg: Registry, level: nat): (l: nat)
    requires level < |reg|
    ensures l <= level
  {
    if level > 0 && reg[level] == [] then ScanLevel(reg, level - 1) else level
  }

  /** The scan finds the deepest non-empty bucket at levels 1 to `level`, and 0 when there is none. */
  lemma {:induction false} ScanLevelSpec(reg: Registry, level: nat)
    requires level < |reg|
    ensures ScanLevel(reg, level) <= level
    ensures forall l :: ScanLevel(reg, level) < l <= level ==> reg[l] == []
    ensures ScanLevel(reg, level) > 0 ==> reg[ScanLevel(reg, level)] != []
    decreases level
  {
    if level > 0 && reg[level] == [] {
      ScanLevelSpec(reg, level - 1);
    }
  }

  /** The path `reduce_tree` folds (`last_mut` of the chosen bucket), or None where `unwrap` panics. */
  function Target(reg: Registry): Option<seq<nat>>
    requires |reg| == Levels
  {
    var bucket := reg[ScanLevel(reg, ScanStart)];
    if bucket == [] then None else Some(bucket[|bucket| - 1])
  }

  /** The buckets once the folded path is taken off. */
  function Popped(reg: Registry): Registry
    requires |reg| == Levels
  {
    var level := ScanLevel(reg, ScanStart);
    if reg[level] == [] then reg else reg[level := reg[level][..|reg[level]| - 1]]
  }

  ghost predicate Distinct<T>(s: seq<T>)
  {
    forall j, k :: 0 <= j < k < |s| ==> s[j] != s[k]
  }

  /** Every listed path leads to an internal node and sits in the bucket of its depth. */
  ghost predicate ListedInternal(root: OctreeNode, reg: Registry)
  {
    && |reg| == Levels
    && forall l, j :: 0 <= l < Levels && 0 <= j < |reg[l]| ==> |reg[l][j]| == l && IsInternalAt(root, reg[l][j])
  }

  /** No path is listed twice. */
  ghost predicate BucketsDistinct(reg: Registry)
  {
    forall l :: 0 <= l < |reg| ==> Distinct(reg[l])
  }

  /** Every internal node is listed, or pending. */
  ghost predicate AllListed(root: OctreeNode, reg: Registry, pending: seq<seq<nat>>)
  {
    forall p :: IsInternalAt(root, p) ==> (|p| < |reg| && p in reg[|p|]) || p in pending
  }

  /** Pending nodes are internal, not listed yet, at most one per level and in order of depth. */
  ghost predicate PendingFresh(root: OctreeNode, reg: Registry, pending: seq<seq<nat>>)
  {
    && (forall l, j :: 0 <= l < |reg| && 0 <= j < |reg[l]| ==> reg[l][j] !in pending)
    && (forall i :: 0 <= i < |pending| ==> IsInternalAt(root, pending[i]))
    && Staircase(pending, LeafLevel)
  }

  /**
   * The buckets list internal nodes of `root`, each once and in the bucket
   * of its depth; every internal node is listed or among `pending`, the
   * unlisted internal nodes just created by an insertion.
   */
  ghost predicate RegistryOf(root: OctreeNode, reg: Registry, pending: seq<seq<nat>>)
  {
    ListedInternal(root, reg) && BucketsDistinct(reg) && AllListed(root, reg, pending) && PendingFresh(root, reg, pending)
  }

  /** The buckets list exactly the internal nodes of `root`, each once, in the bucket of its depth. */
  ghost predicate Registered(root: OctreeNode, reg: Registry)
  {
    RegistryOf(root, reg, [])
  }

  /** Listing the next pending node keeps the buckets exact. */
  lemma RegisterStep(root: OctreeNode, reg: Registry, ps: seq<seq<nat>>, i: nat)
    requires i < |ps| && RegistryOf(root, reg, ps[i..])
    ensures |ps[i]| < Levels
    ensures RegistryOf(root, Push(reg, ps[i]), ps[i + 1..])
  {
    var p, tail := ps[i], ps[i + 1..];
    assert ps[i..] == [p] + tail;
    assert ps[i..][0] == p;
    forall k | 0 <= k < |tail|
      ensures |tail[k]| > |p| && IsInternalAt(root, tail[k])
    {
      assert tail[k] == ps[i..][k + 1];
    }
    PushListed(root, reg, p);
    PushDistinct(reg, p);
    PushFresh(root, reg, p, tail);
    PushAllListed(root, reg, p, tail);
  }

  lemma PushListed(root: OctreeNode, reg: Registry, p: seq<nat>)
    requires ListedInternal(root, reg) && |p| < Levels && IsInternalAt(root, p)
    ensures ListedInternal(root, Push(reg, p))
  {
    var reg' := Push(reg, p);
    forall l, j | 0 <= l < Levels && 0 <= j < |reg'[l]|
      ensures |reg'[l][j]| == l && IsInternalAt(root, reg'[l][j])
    {
      if l == |p| && j == |reg[l]| {
        assert reg'[l][j] == p;
      } else {
        assert reg'[l][j] == reg[l][j];
      }
    }
  }

  lemma PushDistinct(reg: Registry, p: seq<nat>)
    requires BucketsDistinct(reg) && |p| < |reg| && p !in reg[|p|]
    ensures BucketsDistinct(Push(reg, p))
  {
    var reg' := Push(reg, p);
    forall l | 0 <= l < |reg'|
      ensures Distinct(reg'[l])
    {
      if l == |p| {
        assert reg'[l] == reg[l] + [p];
      } else {
        assert reg'[l] == reg[l];
      }
    }
  }

  lemma PushFresh(root: OctreeNode, reg: Registry, p: seq<nat>, tail: seq<seq<nat>>)
    requires PendingFresh(root, reg, [p] + tail) && |p| < |reg|
    requires forall k :: 0 <= k < |tail| ==> |tail[k]| > |p| && IsInternalAt(root, tail[k])
    ensures PendingFresh(root, Push(reg, p), tail)
  {
    var reg' := Push(reg, p);
    forall l, j | 0 <= l < |reg'| && 0 <= j < |reg'[l]|
      ensures reg'[l][j] !in tail
    {
      if l == |p| && j == |reg[l]| {
        assert reg'[l][j] == p;
      } else {
        assert reg'[l][j] == reg[l][j];
        assert reg[l][j] !in [p] + tail;
      }
    }
    var all := [p] + tail;
    assert Staircase(tail, LeafLevel) by {
      forall k | 0 <= k < |tail|
        ensures 1 <= |tail[k]| < LeafLevel
      {
        assert tail[k] == all[k + 1];
      }
      forall j, k | 0 <= j < k < |tail|
        ensures |tail[j]| < |tail[k]|
      {
        assert tail[j] == all[j + 1] && tail[k] == all[k + 1];
      }
    }
  }

  lemma PushAllListed(root: OctreeNode, reg: Registry, p: seq<nat>, tail: seq<seq<nat>>)
    requires AllListed(root, reg, [p] + tail) && |p| < |reg|
    ensures AllListed(root, Push(reg, p), tail)
  {
    var reg' := Push(reg, p);
    forall q | IsInternalAt(root, q)
      ensures (|q| < |reg'| && q in reg'[|q|]) || q in tail
    {
      if q == p {
        assert reg'[|p|] == reg[|p|] + [p];
      } else if |q| < |reg| && q in reg[|q|] {
        if |q| == |p| {
          assert reg'[|p|] == reg[|p|] + [p];
        } else {
          assert reg'[|q|] == reg[|q|];
        }
      }
    }
  }

  /**
   * Before the nodes an insertion created are listed: the old buckets are
   * exact for the new tree up to those nodes, which are pending.
   */
  lemma RegisterStart(root: OctreeNode, c: RgbaColor, reg: Registry)
    requires Shaped(root, 0) && Registered(root, reg)
    ensures RegistryOf(OctreeNodes.AddColor(root, c, 0).node, reg, OctreeNodes.AddColor(root, c, 0).newInner)
  {
    var res := OctreeNodes.AddColor(root, c, 0);
    AddColorStaircase(root, c, 0);
    forall p
      ensures IsInternalAt(res.node, p) <==> IsInternalAt(root, p) || p in res.newInner
      ensures p in res.newInner ==> NodeAt(root, p) == None
    {
      AddColorInternal(root, c, 0, p);
    }
    forall l, j | 0 <= l < Levels && 0 <= j < |reg[l]|
      ensures IsInternalAt(res.node, reg[l][j]) && reg[l][j] !in res.newInner
    {
      assert IsInternalAt(root, reg[l][j]);
    }
    forall i | 0 <= i < |res.newInner|
      ensures IsInternalAt(res.node, res.newInner[i])
    {
      assert res.newInner[i] in res.newInner;
    }
  }

  /** A fresh tree: only the root is internal, and it is listed at level 0. */
  lemma RootRegistered()
    ensures Registered(NewNode(0), RootRegistry)
  {
    forall p | IsInternalAt(NewNode(0), p)
      ensures |p| < Levels && p in RootRegistry[|p|]
    {
      if p != [] {
        NewNodeEmpty(0, p);
      }
    }
  }

  /**
   * With exact buckets, the path `reduce_tree` picks exists exactly when
   * the root is internal, and the node there is reducible: every deeper
   * internal node has already been folded, so its children are all leaves.
   */
  lemma RegisteredTarget(root: OctreeNode, reg: Registry)
    requires OctreeNodes.Valid(root, 0) && Registered(root, reg) && |LeafList(root)| > 0
    ensures Target(reg).Some? <==> !root.isLeaf
    ensures Target(reg).Some? ==>
      && |Target(reg).value| == ScanLevel(reg, ScanStart)
      && IsInternalAt(root, Target(reg).value)
      && Reducible(NodeAt(root, Target(reg).value).value)
  {
    var level := ScanLevel(reg, ScanStart);
    ScanLevelSpec(reg, ScanStart);
    if !root.isLeaf {
      assert IsInternalAt(root, []);
    } else {
      forall l | 0 <= l < Levels
        ensures reg[l] == []
      {
        if reg[l] != [] {
          LeafNodeAt(root, reg[l][0]);
        }
      }
    }
    if Target(reg).Some? {
      var p := Target(reg).value;
      assert p in reg[level];
      var m := NodeAt(root, p).value;
      ValidAt(root, 0, p);
      forall j | 0 <= j < Fanout && m.children[j].Some?
        ensures m.children[j].value.isLeaf
      {
        NodeAtSnoc(root, p, j);
        ValidAt(root, 0, p + [j]);
      }
      if level == 0 {
        InternalHasChild(root);
      }
    }
  }

  lemma PrefixEqualLength(p: seq<nat>, q: seq<nat>)
    requires p <= q && |p| == |q|
    ensures p == q
  {
  }

  /**
   * Folding the picked node and taking it off its bucket keeps the
   * buckets exact: the node is now a leaf, and nothing below it was listed.
   */
  lemma PoppedRegistered(root: OctreeNode, reg: Registry, m: OctreeNode)
    requires OctreeNodes.Valid(root, 0) && Registered(root, reg)
    requires Target(reg).Some? && NodeAt(root, Target(reg).value).Some? && m.isLeaf
    ensures Registered(ReplaceAt(root, Target(reg).value, m), Popped(reg))
  {
    var level := ScanLevel(reg, ScanStart);
    var bucket := reg[level];
    var p := bucket[|bucket| - 1];
    var reg' := reg[level := bucket[..|bucket| - 1]];
    assert Popped(reg) == reg';
    var root' := ReplaceAt(root, p, m);
    ScanLevelSpec(reg, ScanStart);
    PoppedListed(root, reg, m, level);
    PoppedAllListed(root, reg, m, level);
    PoppedDistinct(reg, level);
  }

  lemma PoppedListed(root: OctreeNode, reg: Registry, m: OctreeNode, level: nat)
    requires OctreeNodes.Valid(root, 0) && ListedInternal(root, reg) && BucketsDistinct(reg)
    requires level == ScanLevel(reg, ScanStart) && reg[level] != [] && m.isLeaf
    requires NodeAt(root, reg[level][|reg[level]| - 1]).Some?
    ensures ListedInternal(ReplaceAt(root, reg[level][|reg[level]| - 1], m),
                           reg[level := reg[level][..|reg[level]| - 1]])
  {
    var bucket := reg[level];
    var p := bucket[|bucket| - 1];
    var reg' := reg[level := bucket[..|bucket| - 1]];
    var root' := ReplaceAt(root, p, m);
    ScanLevelSpec(reg, ScanStart);
    forall l, j | 0 <= l < Levels && 0 <= j < |reg'[l]|
      ensures |reg'[l][j]| == l && IsInternalAt(root', reg'[l][j])
    {
      var q := reg'[l][j];
      assert q == reg[l][j];
      ReplaceAtInternal(root, p, m, q);
      if p <= q {
        if |p| == |q| {
          PrefixEqualLength(p, q);
        } else if l > ScanStart {
          ValidAt(root, 0, q);
        }
      }
    }
  }

  lemma PoppedAllListed(root: OctreeNode, reg: Registry, m: OctreeNode, level: nat)
    requires |reg| == Levels && AllListed(root, reg, [])
    requires level < Levels && reg[level] != [] && m.isLeaf && |reg[level][|reg[level]| - 1]| == level
    requires NodeAt(root, reg[level][|reg[level]| - 1]).Some?
    ensures AllListed(ReplaceAt(root, reg[level][|reg[level]| - 1], m),
                      reg[level := reg[level][..|reg[level]| - 1]], [])
  {
    var p := reg[level][|reg[level]| - 1];
    var root' := ReplaceAt(root, p, m);
    forall q | IsInternalAt(root', q)
      ensures |q| < Levels && q in reg[level := reg[level][..|reg[level]| - 1]][|q|]
    {
      PoppedStillListed(root, reg, m, level, q);
    }
  }

  /** An internal node after the fold was internal before, and is not the folded one. */
  lemma PoppedStillListed(root: OctreeNode, reg: Registry, m: OctreeNode, level: nat, q: seq<nat>)
    requires |reg| == Levels && level < Levels && reg[level] != [] && m.isLeaf
    requires |reg[level][|reg[level]| - 1]| == level
    requires NodeAt(root, reg[level][|reg[level]| - 1]).Some?
    requires IsInternalAt(ReplaceAt(root, reg[level][|reg[level]| - 1], m), q)
    requires IsInternalAt(root, q) ==> |q| < Levels && q in reg[|q|]
    ensures |q| < Levels && q in reg[level := reg[level][..|reg[level]| - 1]][|q|]
  {
    var bucket := reg[level];
    var p := bucket[|bucket| - 1];
    ReplaceAtInternal(root, p, m, q);
    if p <= q {
      LeafNodeAt(m, q[|p|..]);
    }
    var k :| 0 <= k < |reg[|q|]| && reg[|q|][k] == q;
    if |q| == level {
      assert k < |bucket| - 1;
      assert bucket[..|bucket| - 1][k] == q;
    }
  }

  lemma PoppedDistinct(reg: Registry, level: nat)
    requires BucketsDistinct(reg) && level < |reg| && reg[level] != []
    ensures BucketsDistinct(reg[level := reg[level][..|reg[level]| - 1]])
  {
    var reg' := reg[level := reg[level][..|reg[level]| - 1]];
    forall l | 0 <= l < |reg'|
      ensures Distinct(reg'[l])
    {
      assert Distinct(reg[l]);
    }
  }

  /** Listing a prefix of the pending nodes leaves the rest pending. */
  lemma {:induction false} RegisterPrefix(root: OctreeNode, reg: Registry, ps: seq<seq<nat>>, k: nat)
    requires RegistryOf(root, reg, ps) && k <= |ps|
    ensures RegistryOf(root, Register(reg, ps[..k]), ps[k..])
  {
    if k == 0 {
      assert ps[..0] == [] && ps[0..] == ps;
    } else {
      var before := Register(reg, ps[..k - 1]);
      assert ps[..k][..k - 1] == ps[..k - 1];
      assert Register(reg, ps[..k]) == Push(before, ps[k - 1]);
      RegisterPrefix(root, reg, ps, k - 1);
      RegisterStep(root, before, ps, k - 1);
    }
  }

  /** Listing all pending nodes makes the buckets exact. */
  lemma RegisterAll(root: OctreeNode, reg: Registry, ps: seq<seq<nat>>)
    requires RegistryOf(root, reg, ps)
    ensures Registered(root, Register(reg, ps))
  {
    RegisterPrefix(root, reg, ps, |ps|);
    assert ps[..|ps|] == ps && ps[|ps|..] == [];
  }

  /** `to_reduce[level].push(..)` for each created internal node, in order of creation. */
  method RegisterNodes(reg: Registry, ps: seq<seq<nat>>) returns (reg': Registry)
    ensures reg' == Register(reg, ps)
  {
    reg' := reg;
    assert ps[..0] == [];
    for i := 0 to |ps|
      invariant reg' == Register(reg, ps[..i])
    {
      assert ps[..i + 1][..i] == ps[..i];
      reg' := Push(reg', ps[i]);
    }
    assert ps[..|ps|] == ps;
  }

  /**
   * The quantizer's invariant over the values of its fields: the tree is
   * valid, the counter counts its leaves, the leaves hold exactly the sums
   * and count of the inserted pixels, and the buckets list its internal nodes.
   */
  ghost predicate Consistent(root: OctreeNode, leafCount: nat, inserted: seq<RgbaColor>, reg: Registry)
  {
    && OctreeNodes.Valid(root, 0)
    && Shaped(root, 0)
    && leafCount == |LeafList(root)|
    && LeafTotals(LeafList(root)) == SumColors(inserted)
    && Registered(root, reg)
  }

  /** Inserting a pixel and listing the internal nodes it created keeps the quantizer consistent. */
  lemma AddColorConsistent(root: OctreeNode, leafCount: nat, inserted: seq<RgbaColor>, reg: Registry, c: RgbaColor)
    requires Consistent(root, leafCount, inserted, reg)
    ensures
      var added := OctreeNodes.AddColor(root, c, 0);
      Consistent(added.node, leafCount + added.newLeaves, inserted + [c], Register(reg, added.newInner))
  {
    var added := OctreeNodes.AddColor(root, c, 0);
    SumColorsSnoc(inserted, c);
    AddColorValid(root, c, 0);
    AddColorLeaves(root, c, 0);
    RegisterStart(root, c, reg);
    RegisterAll(added.node, reg, added.newInner);
    ValidShaped(added.node, 0);
  }

  /**
   * Folding the picked node keeps the quantizer consistent: the node is
   * reducible, the counter loses one leaf per occupied slot and gains the
   * folded node, the pixels are unchanged, and the buckets shrink.
   */
  lemma ReduceConsistent(root: OctreeNode, leafCount: nat, inserted: seq<RgbaColor>, reg: Registry)
    requires Consistent(root, leafCount, inserted, reg) && leafCount > 0 && Target(reg).Some?
    ensures NodeAt(root, Target(reg).value).Some?
    ensures |Target(reg).value| == ScanLevel(reg, ScanStart)
    ensures Reducible(NodeAt(root, Target(reg).value).value)
    ensures Occupied(NodeAt(root, Target(reg).value).value.children) <= leafCount
    ensures
      var p := Target(reg).value;
      var node := NodeAt(root, p).value;
      Consistent(ReplaceAt(root, p, Fold(node)), leafCount - Occupied(node.children) + 1, inserted, Popped(reg))
    ensures RegistrySize(Popped(reg)) < RegistrySize(reg)
  {
    var level := ScanLevel(reg, ScanStart);
    var p := Target(reg).value;
    var bucket := reg[level];
    assert Popped(reg) == reg[level := bucket[..|bucket| - 1]];
    RegisteredTarget(root, reg);
    var node := NodeAt(root, p).value;
    ValidAt(root, 0, p);
    FoldSpec(node, |p|);
    SubtreeLeaves(root, p);
    var root' := ReplaceAt(root, p, Fold(node));
    ReplaceAtValid(root, p, Fold(node), 0);
    ReplaceAtLeaves(root, p, Fold(node));
    LeafTotalsOne(Fold(node));
    PlusCancel(LeafTotals(LeafList(root')), LeafTotals(LeafList(root)), Fold(node).Stats());
    PoppedRegistered(root, reg, Fold(node));
    RegistrySizeUpdate(reg, level, bucket[..|bucket| - 1]);
    ValidShaped(root', 0);
  }

  /**
   * The loop of `reduce_tree` over the slots of the picked node, which has
   * been made a leaf with zero sums: each child is taken out of its slot,
   * its sums and count are added to the node, and the leaf counter loses one.
   */
  method TakeChildren(n: OctreeNode, count: nat) returns (folded: OctreeNode, count': nat)
    requires |n.children| == Fanout && Occupied(n.children) <= count
    ensures folded == Fold(n)
    ensures count' + Occupied(n.children) == count
  {
    folded := n.(isLeaf := true, r := 0, g := 0, b := 0, a := 0, childrenCount := 0);
    count' := count;
    assert n.children[..0] == [];
    for i := 0 to Fanout
      invariant folded.isLeaf && |folded.children| == Fanout
      invariant forall j :: 0 <= j < Fanout ==> folded.children[j] == if j < i then None else n.children[j]
      invariant folded.Stats() == ChildTotals(n.children[..i])
      invariant count' + Occupied(n.children[..i]) == count
    {
      SlotsPrefixSnoc(n.children, i);
      if folded.children[i].Some? {
        var child := folded.children[i].value;
        folded := folded.(children := folded.children[i := None],
                          r := folded.r + child.r, g := folded.g + child.g, b := folded.b + child.b,
                          a := folded.a + child.a, childrenCount := folded.childrenCount + child.childrenCount);
        count' := count' - 1;
      }
    }
    PrefixAll(n.children);
    FoldedLeaf(n, folded);
  }

  /** A leaf with no children holding the totals of a node's children is that node folded. */
  lemma FoldedLeaf(n: OctreeNode, folded: OctreeNode)
    requires folded.isLeaf && |folded.children| == Fanout && |n.children| == Fanout
    requires forall j :: 0 <= j < Fanout ==> folded.children[j] == None
    requires folded.Stats() == ChildTotals(n.children[..Fanout])
    ensures folded == Fold(n)
  {
    assert n.children[..Fanout] == n.children;
    assert folded.children == seq(Fanout, _ => None);
  }
}
