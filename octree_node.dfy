/**
 * The nodes of the octree quantizer (`OctreeNode` in src/color/octree.rs)
 * and what inserting a colour and folding a node do to a tree.
 *
 * A node owns its sixteen child slots exclusively (`Option<Box<..>>`), so
 * the tree is modelled as a value: updating a child in place and rebuilding
 * the parent around the updated child are the same thing.
 */
module OctreeNodes {
  import opened Wrappers
  import opened Colors

  /** Depth of the nodes created as leaves: one bit of each channel per level, levels 0 to 7. */
  const LeafLevel: nat := 7

  /** One child slot per combination of the next bit of r, g, b and a. */
  const Fanout: nat := 16

  /**
   * `is_leaf` marks a node that accumulates pixels; `r`, `g`, `b`, `a`
   * are its running channel sums and `childrenCount` (the source's
   * `children_count`) is the number of pixels accumulated, not of children.
   */
  datatype OctreeNode = OctreeNode(
    children: seq<Option<OctreeNode>>,
    isLeaf: bool,
    r: nat, g: nat, b: nat, a: nat,
    childrenCount: nat)
  {
    function Stats(): Totals
    {
      Totals(r, g, b, a, childrenCount)
    }
  }

  /** `OctreeNode::new(level)`: no children, zero sums, a leaf exactly at level 7. */
  function NewNode(level: nat): OctreeNode
  {
    OctreeNode(seq(Fanout, _ => None), level == LeafLevel, 0, 0, 0, 0, 0)
  }

  function Pow2(k: nat): (p: nat)
    ensures p > 0
  {
    if k == 0 then 1 else 2 * Pow2(k - 1)
  }

  /** Bit `k` of a channel value. */
  function Bit(x: u8, k: nat): nat
  {
    (x as nat / Pow2(k)) % 2
  }

  /**
   * The child slot a colour goes to below a node at `level`: bit
   * `7 - level` of r, g, b and a, packed with r most significant.
   */
  function ChildIndex(c: RgbaColor, level: nat): (idx: nat)
    requires level <= LeafLevel
    ensures idx < Fanout
  {
    var k := LeafLevel - level;
    8 * Bit(c.r, k) + 4 * Bit(c.g, k) + 2 * Bit(c.b, k) + Bit(c.a, k)
  }

  /**
   * The slot as `get_child_index` computes it on bytes:
   * `((r >> shift) & 1) << 3 | ((g >> shift) & 1) << 2 | ((b >> shift) & 1) << 1 | (a >> shift) & 1`
   * with `shift = 7 - level`.
   */
  function ShiftedIndex(c: RgbaColor, level: nat): nat
    requires level <= LeafLevel
  {
    var shift := (LeafLevel - level) as bv8;
    var rBit := (c.r as bv8 >> shift) & 1;
    var gBit := (c.g as bv8 >> shift) & 1;
    var bBit := (c.b as bv8 >> shift) & 1;
    var aBit := (c.a as bv8 >> shift) & 1;
    ((rBit << 3) | (gBit << 2) | (bBit << 1) | aBit) as nat
  }

  lemma ShiftedBit(x: u8, k: nat)
    requires k <= 7
    ensures ((x as bv8 >> (k as bv8)) & 1) as nat == Bit(x, k)
  {
    if k == 0 {} else if k == 1 {} else if k == 2 {} else if k == 3 {}
    else if k == 4 {} else if k == 5 {} else if k == 6 {} else {}
  }

  lemma PackBits(rb: bv8, gb: bv8, bb: bv8, ab: bv8)
    requires rb <= 1 && gb <= 1 && bb <= 1 && ab <= 1
    ensures ((rb << 3) | (gb << 2) | (bb << 1) | ab) as nat
         == 8 * rb as nat + 4 * gb as nat + 2 * bb as nat + ab as nat
  {
  }

  /** The byte-level shifts and masks pick exactly the slot described by the bits. */
  lemma ShiftedIndexIsChildIndex(c: RgbaColor, level: nat)
    requires level <= LeafLevel
    ensures ShiftedIndex(c, level) == ChildIndex(c, level)
    ensures ShiftedIndex(c, level) < Fanout
  {
    var k := 7 - level;
    ShiftedBit(c.r, k);
    ShiftedBit(c.g, k);
    ShiftedBit(c.b, k);
    ShiftedBit(c.a, k);
    var shift := k as bv8;
    PackBits((c.r as bv8 >> shift) & 1, (c.g as bv8 >> shift) & 1, (c.b as bv8 >> shift) & 1, (c.a as bv8 >> shift) & 1);
  }

  /** The slots `add_color` descends through from `level` down to the leaf level. */
  function Route(c: RgbaColor, level: nat): (p: seq<nat>)
    requires level <= LeafLevel
    ensures |p| == LeafLevel - level
    decreases LeafLevel - level
  {
    if level == LeafLevel then [] else [ChildIndex(c, level)] + Route(c, level + 1)
  }

  /** The `j`-th slot of a route is the colour's slot at level `level + j`. */
  lemma {:induction false} RouteAt(c: RgbaColor, level: nat, j: nat)
    requires level <= LeafLevel && j < LeafLevel - level
    ensures Route(c, level)[j] == ChildIndex(c, level + j)
    decreases j
  {
    if j > 0 {
      RouteAt(c, level + 1, j - 1);
    }
  }

  /** Bits 7 to 1 of a byte determine the byte halved, and the other way round. */
  lemma HighBitsAgree(x: u8, y: u8)
    ensures HighBitsEqual(x, y) <==> x / 2 == y / 2
  {
    var a, b := x as nat, y as nat;
    HighBits(x);
    HighBits(y);
    if a / 2 == b / 2 {
      Halves(a);
      Halves(b);
    }
    if HighBitsEqual(x, y) {
      HalfFromBits(a);
      HalfFromBits(b);
    }
  }

  /** A byte halved, rebuilt from its bits 7 to 1. */
  lemma HalfFromBits(x: nat)
    requires x < 256
    ensures x / 2 == 64 * ((x / 128) % 2) + 32 * ((x / 64) % 2) + 16 * ((x / 32) % 2)
                   + 8 * ((x / 16) % 2) + 4 * ((x / 8) % 2) + 2 * ((x / 4) % 2) + (x / 2) % 2
  {
    Halves(x);
    assert x / 2 == 2 * (x / 4) + (x / 2) % 2;
    assert x / 4 == 2 * (x / 8) + (x / 4) % 2;
    assert x / 8 == 2 * (x / 16) + (x / 8) % 2;
    assert x / 16 == 2 * (x / 32) + (x / 16) % 2;
    assert x / 32 == 2 * (x / 64) + (x / 32) % 2;
    assert x / 64 == 2 * (x / 128) + (x / 64) % 2;
    assert (x / 128) % 2 == x / 128;
  }

  /** Bits 1 to 7 of a byte, with the powers of two written out. */
  lemma HighBits(x: u8)
    ensures Bit(x, 1) == (x as nat / 2) % 2 && Bit(x, 2) == (x as nat / 4) % 2
    ensures Bit(x, 3) == (x as nat / 8) % 2 && Bit(x, 4) == (x as nat / 16) % 2
    ensures Bit(x, 5) == (x as nat / 32) % 2 && Bit(x, 6) == (x as nat / 64) % 2
    ensures Bit(x, 7) == (x as nat / 128) % 2
  {
    assert Pow2(1) == 2 && Pow2(2) == 4 && Pow2(3) == 8 && Pow2(4) == 16;
    assert Pow2(5) == 32 && Pow2(6) == 64 && Pow2(7) == 128;
  }

  lemma Halves(x: nat)
    requires x < 256
    ensures x / 4 == (x / 2) / 2 && x / 8 == (x / 4) / 2 && x / 16 == (x / 8) / 2
    ensures x / 32 == (x / 16) / 2 && x / 64 == (x / 32) / 2 && x / 128 == (x / 64) / 2
    ensures x / 128 < 2
  {
  }

  lemma SlotDetermined(c1: RgbaColor, c2: RgbaColor, level: nat)
    requires level <= LeafLevel
    ensures ChildIndex(c1, level) == ChildIndex(c2, level) <==>
      (Bit(c1.r, 7 - level) == Bit(c2.r, 7 - level) && Bit(c1.g, 7 - level) == Bit(c2.g, 7 - level)
       && Bit(c1.b, 7 - level) == Bit(c2.b, 7 - level) && Bit(c1.a, 7 - level) == Bit(c2.a, 7 - level))
  {
  }

  /** Bits 7 to 1 of two bytes agree. */
  predicate HighBitsEqual(x: u8, y: u8)
  {
    && Bit(x, 1) == Bit(y, 1) && Bit(x, 2) == Bit(y, 2) && Bit(x, 3) == Bit(y, 3)
    && Bit(x, 4) == Bit(y, 4) && Bit(x, 5) == Bit(y, 5) && Bit(x, 6) == Bit(y, 6)
    && Bit(x, 7) == Bit(y, 7)
  }

  lemma RoutesEqual(c1: RgbaColor, c2: RgbaColor)
    ensures Route(c1, 0) == Route(c2, 0) <==>
      (&& ChildIndex(c1, 0) == ChildIndex(c2, 0) && ChildIndex(c1, 1) == ChildIndex(c2, 1)
       && ChildIndex(c1, 2) == ChildIndex(c2, 2) && ChildIndex(c1, 3) == ChildIndex(c2, 3)
       && ChildIndex(c1, 4) == ChildIndex(c2, 4) && ChildIndex(c1, 5) == ChildIndex(c2, 5)
       && ChildIndex(c1, 6) == ChildIndex(c2, 6))
  {
    var p1, p2 := Route(c1, 0), Route(c2, 0);
    forall j | 0 <= j < 7
      ensures p1[j] == ChildIndex(c1, j) && p2[j] == ChildIndex(c2, j)
    {
      RouteAt(c1, 0, j);
      RouteAt(c2, 0, j);
    }
    if p1 == p2 {
      assert p1[0] == p2[0] && p1[1] == p2[1] && p1[2] == p2[2] && p1[3] == p2[3];
      assert p1[4] == p2[4] && p1[5] == p2[5] && p1[6] == p2[6];
    }
  }

  /**
   * Two colours reach the same leaf exactly when they agree on bits 7 to 1
   * of every channel: bit 0 is never examined.
   */
  lemma SameLeafIffHighBitsAgree(c1: RgbaColor, c2: RgbaColor)
    ensures Route(c1, 0) == Route(c2, 0) <==>
      (c1.r / 2 == c2.r / 2 && c1.g / 2 == c2.g / 2 && c1.b / 2 == c2.b / 2 && c1.a / 2 == c2.a / 2)
  {
    RoutesEqual(c1, c2);
    SlotDetermined(c1, c2, 0);
    SlotDetermined(c1, c2, 1);
    SlotDetermined(c1, c2, 2);
    SlotDetermined(c1, c2, 3);
    SlotDetermined(c1, c2, 4);
    SlotDetermined(c1, c2, 5);
    SlotDetermined(c1, c2, 6);
    assert Route(c1, 0) == Route(c2, 0) <==>
      HighBitsEqual(c1.r, c2.r) && HighBitsEqual(c1.g, c2.g) && HighBitsEqual(c1.b, c2.b) && HighBitsEqual(c1.a, c2.a);
    HighBitsAgree(c1.r, c2.r);
    HighBitsAgree(c1.g, c2.g);
    HighBitsAgree(c1.b, c2.b);
    HighBitsAgree(c1.a, c2.a);
  }

  /**
   * The structure `add_color` relies on: sixteen slots everywhere, leaves
   * without children, internal nodes only above the leaf level.
   */
  ghost predicate Shaped(n: OctreeNode, level: nat)
    decreases n
  {
    && level <= LeafLevel
    && |n.children| == Fanout
    && if n.isLeaf then forall i :: 0 <= i < Fanout ==> n.children[i].None?
       else
         && level < LeafLevel
         && forall i :: 0 <= i < Fanout && n.children[i].Some? ==> Shaped(n.children[i].value, level + 1)
  }

  lemma NewNodeShaped(level: nat)
    requires level <= LeafLevel
    ensures Shaped(NewNode(level), level)
  {
  }

  lemma {:induction false} ValidShaped(n: OctreeNode, level: nat)
    requires Valid(n, level)
    ensures Shaped(n, level)
    decreases n
  {
    if !n.isLeaf {
      forall i | 0 <= i < Fanout && n.children[i].Some?
        ensures Shaped(n.children[i].value, level + 1)
      {
        ValidShaped(n.children[i].value, level + 1);
      }
    }
  }

  /**
   * The shape every node reachable in the quantizer keeps: sixteen slots;
   * a leaf has no children, at least one pixel and channel sums of at most
   * 255 per pixel; an internal node sits above level 7, carries zero sums
   * and, below the root, at least one child.
   */
  ghost predicate Valid(n: OctreeNode, level: nat)
    decreases n
  {
    && level <= LeafLevel
    && |n.children| == Fanout
    && if n.isLeaf then
         && (forall i :: 0 <= i < Fanout ==> n.children[i].None?)
         && n.childrenCount > 0
         && Bounded(n.Stats())
       else
         && level < LeafLevel
         && n.Stats() == NoTotals
         && (level > 0 ==> exists i :: 0 <= i < Fanout && n.children[i].Some?)
         && forall i :: 0 <= i < Fanout && n.children[i].Some? ==> Valid(n.children[i].value, level + 1)
  }

  function Concat<T>(ss: seq<seq<T>>): seq<T>
  {
    if ss == [] then [] else Concat(ss[..|ss| - 1]) + ss[|ss| - 1]
  }

  /** The leaves of a tree in child-slot order, the order `colors_stats` visits them. */
  function LeafList(n: OctreeNode): seq<OctreeNode>
    decreases n, 2
  {
    if n.isLeaf then [n] else Concat(ChildLists(n.children))
  }

  /** The leaves below one child slot; an empty slot has none. */
  function SlotLeaves(slot: Option<OctreeNode>): seq<OctreeNode>
    decreases slot, 0
  {
    if slot.Some? then LeafList(slot.value) else []
  }

  /** The leaf lists of each child slot. */
  function ChildLists(cs: seq<Option<OctreeNode>>): (ls: seq<seq<OctreeNode>>)
    ensures |ls| == |cs|
    decreases cs, 1
  {
    seq(|cs|, i requires 0 <= i < |cs| => SlotLeaves(cs[i]))
  }

  lemma ChildListsAt(cs: seq<Option<OctreeNode>>, i: nat)
    requires i < |cs|
    ensures ChildLists(cs)[i] == if cs[i].Some? then LeafList(cs[i].value) else []
  {
  }

  lemma ChildListsSnoc(cs: seq<Option<OctreeNode>>)
    requires cs != []
    ensures ChildLists(cs) == ChildLists(cs[..|cs| - 1]) + [ChildLists(cs)[|cs| - 1]]
  {
    var init := cs[..|cs| - 1];
    var ls, front := ChildLists(cs), ChildLists(init);
    forall i | 0 <= i < |front|
      ensures ls[i] == front[i]
    {
      ChildListsAt(cs, i);
      ChildListsAt(init, i);
    }
    SnocEqual(ls, front);
  }

  /** A nonempty sequence that agrees with `t` before its last position is `t` plus that last element. */
  lemma SnocEqual<T>(s: seq<T>, t: seq<T>)
    requires s != [] && |t| == |s| - 1
    requires forall i :: 0 <= i < |t| ==> s[i] == t[i]
    ensures s == t + [s[|s| - 1]]
  {
  }

  /** Channel sums and pixel counts added up over a list of leaves. */
  function LeafTotals(ls: seq<OctreeNode>): Totals
  {
    if ls == [] then NoTotals
    else
      LeafTotals(ls[..|ls| - 1]).Plus(ls[|ls| - 1].Stats())
  }

  lemma {:induction false} ConcatAppend<T>(ss: seq<seq<T>>, tt: seq<seq<T>>)
    ensures Concat(ss + tt) == Concat(ss) + Concat(tt)
    decreases |tt|
  {
    if tt == [] {
      assert ss + tt == ss;
    } else {
      var init, last := tt[..|tt| - 1], tt[|tt| - 1];
      assert (ss + tt)[..|ss + tt| - 1] == ss + init;
      assert (ss + tt)[|ss + tt| - 1] == last;
      ConcatAppend(ss, init);
      assert Concat(tt) == Concat(init) + last;
    }
  }

  /** Concatenation around one slot: what lies before it, the slot, what lies after. */
  lemma ConcatSplit<T>(ss: seq<seq<T>>, i: nat)
    requires i < |ss|
    ensures Concat(ss) == Concat(ss[..i]) + ss[i] + Concat(ss[i + 1..])
  {
    var pre, mid, post := ss[..i], [ss[i]], ss[i + 1..];
    SplitAround(ss, i);
    ConcatAppend(pre + mid, post);
    ConcatAppend(pre, mid);
    ConcatOne(ss[i]);
  }

  /** A sequence is what lies before position `i`, the element there and what lies after. */
  lemma SplitAround<T>(s: seq<T>, i: nat)
    requires i < |s|
    ensures s == (s[..i] + [s[i]]) + s[i + 1..]
  {
  }

  lemma ConcatOne<T>(s: seq<T>)
    ensures Concat([s]) == s
  {
    assert [s][..0] == [];
  }

  lemma {:induction false} LeafTotalsAppend(ls: seq<OctreeNode>, ms: seq<OctreeNode>)
    ensures LeafTotals(ls + ms) == LeafTotals(ls).Plus(LeafTotals(ms))
    decreases |ms|
  {
    if ms == [] {
      assert ls + ms == ls;
    } else {
      var init, last := ms[..|ms| - 1], ms[|ms| - 1];
      var all := ls + ms;
      assert all[..|all| - 1] == ls + init;
      assert all[|all| - 1] == last;
      LeafTotalsAppend(ls, init);
      PlusAssoc(LeafTotals(ls), LeafTotals(init), last.Stats());
    }
  }

  /** `n` with slot `idx` holding `m`. */
  function WithChild(n: OctreeNode, idx: nat, m: OctreeNode): OctreeNode
    requires idx < |n.children|
  {
    n.(children := n.children[idx := Some(m)])
  }

  lemma LeafTotalsOne(x: OctreeNode)
    ensures LeafTotals([x]) == x.Stats()
  {
    assert [x][..0] == [];
  }

  /**
   * Putting `m` in a slot of an internal node swaps the slot's leaves for
   * those of `m`, in count and in totals.
   */
  lemma WithChildLeaves(n: OctreeNode, idx: nat, m: OctreeNode)
    requires !n.isLeaf && idx < |n.children|
    ensures |LeafList(WithChild(n, idx, m))| + |SlotLeaves(n.children[idx])| == |LeafList(n)| + |LeafList(m)|
    ensures LeafTotals(LeafList(WithChild(n, idx, m))).Plus(LeafTotals(SlotLeaves(n.children[idx])))
         == LeafTotals(LeafList(n)).Plus(LeafTotals(LeafList(m)))
  {
    WithChildConcat(n, idx, m);
    var before := ChildLists(n.children);
    var pre, post := Concat(before[..idx]), Concat(before[idx + 1..]);
    var slot := SlotLeaves(n.children[idx]);
    LeafTotalsAppend(pre + slot, post);
    LeafTotalsAppend(pre, slot);
    LeafTotalsAppend(pre + LeafList(m), post);
    LeafTotalsAppend(pre, LeafList(m));
  }

  /** The leaves around slot `idx`, before and after `m` is put there. */
  lemma WithChildConcat(n: OctreeNode, idx: nat, m: OctreeNode)
    requires !n.isLeaf && idx < |n.children|
    ensures LeafList(n) == Concat(ChildLists(n.children)[..idx]) + SlotLeaves(n.children[idx])
                           + Concat(ChildLists(n.children)[idx + 1..])
    ensures LeafList(WithChild(n, idx, m)) == Concat(ChildLists(n.children)[..idx]) + LeafList(m)
                                              + Concat(ChildLists(n.children)[idx + 1..])
  {
    var n' := WithChild(n, idx, m);
    var before := ChildLists(n.children);
    var after := ChildLists(n'.children);
    assert after[idx] == SlotLeaves(Some(m)) == LeafList(m);
    assert forall i :: 0 <= i < |after| && i != idx ==> after[i] == before[i];
    assert after == before[idx := LeafList(m)];
    ConcatSplit(before, idx);
    ConcatSplit(after, idx);
    assert after[..idx] == before[..idx] && after[idx + 1..] == before[idx + 1..];
  }

  /** Paths into other slots are untouched; paths into `idx` continue into `m`. */
  lemma WithChildNodeAt(n: OctreeNode, idx: nat, m: OctreeNode, p: seq<nat>)
    requires !n.isLeaf && idx < |n.children| && p != []
    ensures p[0] != idx ==> NodeAt(WithChild(n, idx, m), p) == NodeAt(n, p)
    ensures p[0] == idx ==> NodeAt(WithChild(n, idx, m), p) == NodeAt(m, p[1..])
  {
  }

  /** What one insertion did: the new node, the leaves it created and the paths of the internal nodes it created. */
  datatype Added = Added(node: OctreeNode, newLeaves: nat, newInner: seq<seq<nat>>)

  function Prefixed(idx: nat, ps: seq<seq<nat>>): (qs: seq<seq<nat>>)
    ensures |qs| == |ps|
    ensures forall i :: 0 <= i < |ps| ==> qs[i] == [idx] + ps[i]
  {
    seq(|ps|, i requires 0 <= i < |ps| => [idx] + ps[i])
  }

  /** Whether insertion below an internal node has to create the child on the colour's route. */
  predicate Creates(n: OctreeNode, c: RgbaColor, level: nat)
    requires level <= LeafLevel && |n.children| == Fanout
  {
    n.children[ChildIndex(c, level)].None?
  }

  /** The child insertion descends into: the existing one, or a fresh node one level down. */
  function Descend(n: OctreeNode, c: RgbaColor, level: nat): (d: OctreeNode)
    requires Shaped(n, level) && !n.isLeaf
    ensures level < LeafLevel && Shaped(d, level + 1)
  {
    NewNodeShaped(level + 1);
    if Creates(n, c, level) then NewNode(level + 1) else n.children[ChildIndex(c, level)].value
  }

  /**
   * `add_color(color, level)`: a leaf adds the colour to its sums and
   * counts one more pixel; an internal node picks the slot of the colour's
   * bits at `level`, creates the child there when the slot is empty (a leaf
   * when the child's level is 7) and recurses into it. `newLeaves` counts
   * the leaf the source's `OctreeNode::new` adds to the leaf counter,
   * `newInner` lists the paths (relative to `n`) of internal nodes created,
   * top-down.
   */
  function AddColor(n: OctreeNode, c: RgbaColor, level: nat): (res: Added)
    requires Shaped(n, level)
    ensures res.newLeaves <= 1
    ensures n.isLeaf ==> res.newLeaves == 0 && res.newInner == []
    ensures res.node.isLeaf == n.isLeaf
    decreases LeafLevel - level
  {
    if n.isLeaf then
      Added(n.(r := n.r + c.r as nat, g := n.g + c.g as nat, b := n.b + c.b as nat,
               a := n.a + c.a as nat, childrenCount := n.childrenCount + 1), 0, [])
    else
      var idx := ChildIndex(c, level);
      var created := Creates(n, c, level);
      var sub := AddColor(Descend(n, c, level), c, level + 1);
      Added(WithChild(n, idx, sub.node),
            (if created && level + 1 == LeafLevel then 1 else 0) + sub.newLeaves,
            (if created && level + 1 < LeafLevel then [[idx]] else []) + Prefixed(idx, sub.newInner))
  }

  /**
   * Insertion keeps a tree valid; a freshly created node becomes valid
   * by receiving its first colour.
   */
  lemma {:induction false} AddColorValid(n: OctreeNode, c: RgbaColor, level: nat)
    requires level <= LeafLevel
    requires Valid(n, level) || n == NewNode(level)
    ensures Shaped(n, level)
    ensures Valid(AddColor(n, c, level).node, level)
    decreases LeafLevel - level
  {
    if n == NewNode(level) {
      NewNodeShaped(level);
    } else {
      ValidShaped(n, level);
    }
    if n.isLeaf {
      LeafAddValid(n, c, level);
    } else {
      var child := Descend(n, c, level);
      AddColorValid(child, c, level + 1);
      var sub := AddColor(child, c, level + 1).node;
      assert AddColor(n, c, level).node == WithChild(n, ChildIndex(c, level), sub);
      WithChildValid(n, ChildIndex(c, level), sub, level);
    }
  }

  /** A leaf, fresh or not, is valid once it holds one more colour. */
  lemma LeafAddValid(n: OctreeNode, c: RgbaColor, level: nat)
    requires level <= LeafLevel && n.isLeaf
    requires Valid(n, level) || n == NewNode(level)
    ensures Shaped(n, level)
    ensures Valid(AddColor(n, c, level).node, level)
  {
    if n == NewNode(level) {
      NewNodeShaped(level);
    } else {
      ValidShaped(n, level);
    }
  }

  /** An internal node, fresh or not, is valid once a valid child is put in one of its slots. */
  lemma WithChildValid(n: OctreeNode, idx: nat, m: OctreeNode, level: nat)
    requires level < LeafLevel && !n.isLeaf && idx < Fanout
    requires Valid(n, level) || n == NewNode(level)
    requires Valid(m, level + 1)
    ensures Valid(WithChild(n, idx, m), level)
  {
    var node := WithChild(n, idx, m);
    assert node.children[idx].Some?;
    forall i | 0 <= i < Fanout && node.children[i].Some?
      ensures Valid(node.children[i].value, level + 1)
    {
      if i != idx {
        assert node.children[i] == n.children[i];
      }
    }
  }

  /**
   * Conservation under insertion: the leaf count grows by the leaves
   * created, and the channel sums and pixel count over all leaves grow by
   * exactly the inserted colour and one pixel.
   */
  lemma {:induction false} AddColorLeaves(n: OctreeNode, c: RgbaColor, level: nat)
    requires Shaped(n, level)
    ensures |LeafList(AddColor(n, c, level).node)| == |LeafList(n)| + AddColor(n, c, level).newLeaves
    ensures LeafTotals(LeafList(AddColor(n, c, level).node)) == LeafTotals(LeafList(n)).Add(c)
    decreases LeafLevel - level
  {
    if n.isLeaf {
      LeafTotalsOne(n);
      LeafTotalsOne(AddColor(n, c, level).node);
    } else {
      AddColorLeaves(Descend(n, c, level), c, level + 1);
      AddColorCountStep(n, c, level);
      AddColorTotalsStep(n, c, level);
    }
  }

  /** One level of `AddColorLeaves`, for the leaf count. */
  lemma AddColorCountStep(n: OctreeNode, c: RgbaColor, level: nat)
    requires Shaped(n, level) && !n.isLeaf
    requires |LeafList(AddColor(Descend(n, c, level), c, level + 1).node)|
          == |LeafList(Descend(n, c, level))| + AddColor(Descend(n, c, level), c, level + 1).newLeaves
    ensures |LeafList(AddColor(n, c, level).node)| == |LeafList(n)| + AddColor(n, c, level).newLeaves
  {
    var idx := ChildIndex(c, level);
    var sub := AddColor(Descend(n, c, level), c, level + 1);
    assert AddColor(n, c, level).node == WithChild(n, idx, sub.node);
    WithChildLeaves(n, idx, sub.node);
    if Creates(n, c, level) {
      CreatedCount(n, c, level);
    } else {
      ExistingCount(n, c, level);
    }
  }

  /** A created child: its slot had no leaves, and the leaves it brings are counted as new. */
  lemma CreatedCount(n: OctreeNode, c: RgbaColor, level: nat)
    requires Shaped(n, level) && !n.isLeaf && Creates(n, c, level)
    ensures |SlotLeaves(n.children[ChildIndex(c, level)])| == 0
    ensures AddColor(n, c, level).newLeaves
         == |LeafList(Descend(n, c, level))| + AddColor(Descend(n, c, level), c, level + 1).newLeaves
  {
    NewNodeLeaves(level + 1);
  }

  /** An existing child: its slot held its leaves, and no leaf is created at this level. */
  lemma ExistingCount(n: OctreeNode, c: RgbaColor, level: nat)
    requires Shaped(n, level) && !n.isLeaf && !Creates(n, c, level)
    ensures |SlotLeaves(n.children[ChildIndex(c, level)])| == |LeafList(Descend(n, c, level))|
    ensures AddColor(n, c, level).newLeaves == AddColor(Descend(n, c, level), c, level + 1).newLeaves
  {
  }

  /** One level of `AddColorLeaves`, for the sums and the pixel count. */
  lemma AddColorTotalsStep(n: OctreeNode, c: RgbaColor, level: nat)
    requires Shaped(n, level) && !n.isLeaf
    requires LeafTotals(LeafList(AddColor(Descend(n, c, level), c, level + 1).node))
          == LeafTotals(LeafList(Descend(n, c, level))).Add(c)
    ensures LeafTotals(LeafList(AddColor(n, c, level).node)) == LeafTotals(LeafList(n)).Add(c)
  {
    var idx := ChildIndex(c, level);
    var child := Descend(n, c, level);
    var sub := AddColor(child, c, level + 1);
    var res := AddColor(n, c, level);
    assert res.node == WithChild(n, idx, sub.node);
    WithChildLeaves(n, idx, sub.node);
    var slot := SlotLeaves(n.children[idx]);
    if Creates(n, c, level) {
      NewNodeLeaves(level + 1);
      assert slot == [];
    } else {
      assert slot == LeafList(child);
    }
    TotalsCancel(LeafTotals(LeafList(res.node)), LeafTotals(slot), LeafTotals(LeafList(n)), LeafTotals(LeafList(child)), c);
  }

  /** A fresh node has no leaves below it, or is itself an empty leaf. */
  lemma NewNodeLeaves(level: nat)
    ensures |LeafList(NewNode(level))| == if level == LeafLevel then 1 else 0
    ensures LeafTotals(LeafList(NewNode(level))) == NoTotals
  {
    var n := NewNode(level);
    if level == LeafLevel {
      assert LeafList(n) == [n];
      LeafTotalsOne(n);
    } else {
      EmptyChildLists(n.children);
      assert LeafList(n) == [];
    }
  }

  lemma TotalsCancel(x: Totals, slot: Totals, whole: Totals, child: Totals, c: RgbaColor)
    requires x.Plus(slot) == whole.Plus(child.Add(c))
    requires slot == child || (slot == NoTotals && child == NoTotals)
    ensures x == whole.Add(c)
  {
  }

  lemma {:induction false} EmptyChildLists(cs: seq<Option<OctreeNode>>)
    requires forall i :: 0 <= i < |cs| ==> cs[i].None?
    ensures Concat(ChildLists(cs)) == []
    decreases |cs|
  {
    if cs != [] {
      assert ChildLists(cs)[..|cs| - 1] == ChildLists(cs[..|cs| - 1]);
      EmptyChildLists(cs[..|cs| - 1]);
    }
  }

  /** The node a path of child slots leads to; a leaf has no children to follow. */
  function NodeAt(n: OctreeNode, p: seq<nat>): Option<OctreeNode>
    decreases |p|
  {
    if p == [] then Some(n)
    else if !n.isLeaf && p[0] < |n.children| && n.children[p[0]].Some? then NodeAt(n.children[p[0]].value, p[1..])
    else None
  }

  /** A path that leads to an internal node. */
  ghost predicate IsInternalAt(n: OctreeNode, p: seq<nat>)
  {
    NodeAt(n, p).Some? && !NodeAt(n, p).value.isLeaf
  }

  /**
   * Insertion touches only the nodes on the colour's route: every path
   * that is not a prefix of the route leads where it led before.
   */
  lemma {:induction false} AddColorFrame(n: OctreeNode, c: RgbaColor, level: nat, p: seq<nat>)
    requires Shaped(n, level)
    requires !(p <= Route(c, level))
    ensures NodeAt(AddColor(n, c, level).node, p) == NodeAt(n, p)
    decreases LeafLevel - level
  {
    if !n.isLeaf {
      if p[0] == ChildIndex(c, level) {
        RouteTail(c, level, p);
        AddColorFrame(Descend(n, c, level), c, level + 1, p[1..]);
      }
      AddColorFrameStep(n, c, level, p);
    }
  }

  /** A path off the route that starts on it leaves the route further down. */
  lemma RouteTail(c: RgbaColor, level: nat, p: seq<nat>)
    requires level < LeafLevel && p != [] && p[0] == ChildIndex(c, level)
    requires !(p <= Route(c, level))
    ensures p[1..] != [] && !(p[1..] <= Route(c, level + 1))
  {
    assert Route(c, level) == [p[0]] + Route(c, level + 1);
  }

  lemma AddColorFrameStep(n: OctreeNode, c: RgbaColor, level: nat, p: seq<nat>)
    requires Shaped(n, level) && !n.isLeaf && p != []
    requires p[0] == ChildIndex(c, level) ==>
      (p[1..] != [] && NodeAt(AddColor(Descend(n, c, level), c, level + 1).node, p[1..]) == NodeAt(Descend(n, c, level), p[1..]))
    ensures NodeAt(AddColor(n, c, level).node, p) == NodeAt(n, p)
  {
    var idx := ChildIndex(c, level);
    var sub := AddColor(Descend(n, c, level), c, level + 1);
    assert AddColor(n, c, level).node == WithChild(n, idx, sub.node);
    WithChildNodeAt(n, idx, sub.node, p);
    if p[0] == idx && Creates(n, c, level) {
      NewNodeEmpty(level + 1, p[1..]);
    }
  }

  lemma NewNodeEmpty(level: nat, p: seq<nat>)
    requires p != []
    ensures NodeAt(NewNode(level), p) == None
  {
  }

  lemma PrefixedMember(idx: nat, ps: seq<seq<nat>>, p: seq<nat>)
    requires p != []
    ensures p in Prefixed(idx, ps) <==> p[0] == idx && p[1..] in ps
  {
    if p in Prefixed(idx, ps) {
      var i :| 0 <= i < |ps| && Prefixed(idx, ps)[i] == p;
      assert p[1..] == ps[i];
    }
    if p[0] == idx && p[1..] in ps {
      var i :| 0 <= i < |ps| && ps[i] == p[1..];
      assert Prefixed(idx, ps)[i] == p;
    }
  }

  /** Nonempty paths shorter than `bound`, strictly increasing in length. */
  ghost predicate Staircase(ps: seq<seq<nat>>, bound: nat)
  {
    && (forall i :: 0 <= i < |ps| ==> 1 <= |ps[i]| < bound)
    && (forall i, j :: 0 <= i < j < |ps| ==> |ps[i]| < |ps[j]|)
  }

  /**
   * The internal nodes one insertion creates lie at most one per level,
   * strictly above the leaf level and strictly below `n`.
   */
  lemma {:induction false} AddColorStaircase(n: OctreeNode, c: RgbaColor, level: nat)
    requires Shaped(n, level)
    ensures Staircase(AddColor(n, c, level).newInner, LeafLevel - level)
    decreases LeafLevel - level
  {
    if !n.isLeaf {
      var idx := ChildIndex(c, level);
      var sub := AddColor(Descend(n, c, level), c, level + 1);
      AddColorStaircase(Descend(n, c, level), c, level + 1);
      var head: seq<seq<nat>> := if Creates(n, c, level) && level + 1 < LeafLevel then [[idx]] else [];
      var q := Prefixed(idx, sub.newInner);
      var ps := AddColor(n, c, level).newInner;
      assert ps == head + q;
      assert forall i :: 0 <= i < |q| ==> |q[i]| == 1 + |sub.newInner[i]|;
      if head != [] {
        assert forall i :: 0 <= i < |ps| ==> ps[i] == if i == 0 then [idx] else q[i - 1];
      }
    }
  }

  /**
   * Insertion creates internal nodes exactly at the paths it reports: a
   * path leads to an internal node afterwards iff it did before or it is
   * one of `newInner`, which led nowhere before.
   */
  lemma {:induction false} AddColorInternal(n: OctreeNode, c: RgbaColor, level: nat, p: seq<nat>)
    requires Shaped(n, level)
    ensures IsInternalAt(AddColor(n, c, level).node, p) <==> IsInternalAt(n, p) || p in AddColor(n, c, level).newInner
    ensures p in AddColor(n, c, level).newInner ==> NodeAt(n, p) == None
    decreases LeafLevel - level
  {
    AddColorStaircase(n, c, level);
    if !n.isLeaf && p != [] {
      AddColorInternal(Descend(n, c, level), c, level + 1, p[1..]);
      AddColorInternalStep(n, c, level, p);
    }
  }

  lemma AddColorInternalStep(n: OctreeNode, c: RgbaColor, level: nat, p: seq<nat>)
    requires Shaped(n, level) && !n.isLeaf && p != []
    requires IsInternalAt(AddColor(Descend(n, c, level), c, level + 1).node, p[1..])
         <==> IsInternalAt(Descend(n, c, level), p[1..]) || p[1..] in AddColor(Descend(n, c, level), c, level + 1).newInner
    requires p[1..] in AddColor(Descend(n, c, level), c, level + 1).newInner ==> NodeAt(Descend(n, c, level), p[1..]) == None
    ensures IsInternalAt(AddColor(n, c, level).node, p) <==> IsInternalAt(n, p) || p in AddColor(n, c, level).newInner
    ensures p in AddColor(n, c, level).newInner ==> NodeAt(n, p) == None
  {
    var idx := ChildIndex(c, level);
    var sub := AddColor(Descend(n, c, level), c, level + 1);
    var res := AddColor(n, c, level);
    var head: seq<seq<nat>> := if Creates(n, c, level) && level + 1 < LeafLevel then [[idx]] else [];
    assert res.node == WithChild(n, idx, sub.node);
    assert res.newInner == head + Prefixed(idx, sub.newInner);
    WithChildNodeAt(n, idx, sub.node, p);
    PrefixedMember(idx, sub.newInner, p);
    var q := p[1..];
    if p[0] != idx {
      assert p !in head;
    } else if !Creates(n, c, level) {
      assert head == [];
      assert NodeAt(n, p) == NodeAt(Descend(n, c, level), q);
    } else {
      assert NodeAt(n, p) == None;
      if q != [] {
        NewNodeEmpty(level + 1, q);
        assert p !in head;
      } else {
        assert p == [idx];
      }
    }
  }

  /** `p` replaced by `m` in `n`; paths through leaves or empty slots change nothing. */
  function ReplaceAt(n: OctreeNode, p: seq<nat>, m: OctreeNode): OctreeNode
    decreases |p|
  {
    if p == [] then m
    else if !n.isLeaf && p[0] < |n.children| && n.children[p[0]].Some? then
      WithChild(n, p[0], ReplaceAt(n.children[p[0]].value, p[1..], m))
    else n
  }

  /**
   * Replacing a subtree swaps its leaves for the replacement's: leaf
   * count and leaf totals change by the difference between the two.
   */
  lemma {:induction false} ReplaceAtLeaves(n: OctreeNode, p: seq<nat>, m: OctreeNode)
    requires NodeAt(n, p).Some?
    ensures |LeafList(ReplaceAt(n, p, m))| + |LeafList(NodeAt(n, p).value)| == |LeafList(n)| + |LeafList(m)|
    ensures LeafTotals(LeafList(ReplaceAt(n, p, m))).Plus(LeafTotals(LeafList(NodeAt(n, p).value)))
         == LeafTotals(LeafList(n)).Plus(LeafTotals(LeafList(m)))
    decreases |p|
  {
    if p != [] {
      var child := n.children[p[0]].value;
      ReplaceAtLeaves(child, p[1..], m);
      WithChildLeaves(n, p[0], ReplaceAt(child, p[1..], m));
      TotalsShift(LeafTotals(LeafList(ReplaceAt(n, p, m))), LeafTotals(LeafList(child)),
                  LeafTotals(LeafList(n)), LeafTotals(LeafList(ReplaceAt(child, p[1..], m))),
                  LeafTotals(LeafList(NodeAt(n, p).value)), LeafTotals(LeafList(m)));
    }
  }

  lemma TotalsShift(x: Totals, slot: Totals, whole: Totals, sub: Totals, removed: Totals, added: Totals)
    requires x.Plus(slot) == whole.Plus(sub)
    requires sub.Plus(removed) == slot.Plus(added)
    ensures x.Plus(removed) == whole.Plus(added)
  {
  }

  /**
   * After a replacement, paths below the replaced one lead into the
   * replacement and every other path leads to an internal node exactly
   * when it did before.
   */
  lemma {:induction false} ReplaceAtInternal(n: OctreeNode, p: seq<nat>, m: OctreeNode, q: seq<nat>)
    requires NodeAt(n, p).Some?
    ensures p <= q ==> NodeAt(ReplaceAt(n, p, m), q) == NodeAt(m, q[|p|..])
    ensures !(p <= q) ==> (IsInternalAt(ReplaceAt(n, p, m), q) <==> IsInternalAt(n, q))
    decreases |p|
  {
    if p != [] && q != [] && q[0] == p[0] {
      var child := n.children[p[0]].value;
      ReplaceAtInternal(child, p[1..], m, q[1..]);
      if p <= q {
        assert p[1..] <= q[1..];
        assert q[1..][|p[1..]|..] == q[|p|..];
      }
    }
  }

  lemma {:induction false} ReplaceAtValid(n: OctreeNode, p: seq<nat>, m: OctreeNode, level: nat)
    requires Valid(n, level)
    requires NodeAt(n, p).Some? && Valid(m, level + |p|)
    ensures Valid(ReplaceAt(n, p, m), level)
    decreases |p|
  {
    if p != [] {
      ReplaceAtValid(n.children[p[0]].value, p[1..], m, level + 1);
      var n' := ReplaceAt(n, p, m);
      assert n'.children[p[0]].Some?;
    }
  }

  /** A node whose children are all leaves and which has at least one: what reduction folds. */
  predicate Reducible(n: OctreeNode)
  {
    && !n.isLeaf
    && |n.children| == Fanout
    && (forall i :: 0 <= i < Fanout && n.children[i].Some? ==> n.children[i].value.isLeaf)
    && exists i :: 0 <= i < Fanout && n.children[i].Some?
  }

  /** The sums and counts of the present children, taken slot by slot. */
  function ChildTotals(cs: seq<Option<OctreeNode>>): Totals
  {
    if cs == [] then NoTotals
    else
      var t := ChildTotals(cs[..|cs| - 1]);
      match cs[|cs| - 1]
      case None => t
      case Some(child) => t.Plus(child.Stats())
  }

  /** The number of occupied slots. */
  function Occupied(cs: seq<Option<OctreeNode>>): nat
  {
    if cs == [] then 0 else Occupied(cs[..|cs| - 1]) + (if cs[|cs| - 1].Some? then 1 else 0)
  }

  /**
   * `reduce_tree` applied to a node: it becomes a leaf whose sums and
   * count are the totals of its former children, and loses its children.
   */
  function Fold(n: OctreeNode): OctreeNode
  {
    var t := ChildTotals(n.children);
    OctreeNode(seq(Fanout, _ => None), true, t.r, t.g, t.b, t.a, t.count)
  }

  /** The leaves below a slot sequence, one slot appended. */
  lemma SlotsSnoc(cs: seq<Option<OctreeNode>>)
    requires cs != []
    ensures Concat(ChildLists(cs)) == Concat(ChildLists(cs[..|cs| - 1])) + SlotLeaves(cs[|cs| - 1])
  {
    var last := ChildLists(cs)[|cs| - 1];
    ChildListsAt(cs, |cs| - 1);
    ChildListsSnoc(cs);
    ConcatAppend(ChildLists(cs[..|cs| - 1]), [last]);
    ConcatOne(last);
  }

  /** Below a node whose children are leaves, the leaves are the occupied slots in order. */
  lemma {:induction false} LeafChildrenTotals(cs: seq<Option<OctreeNode>>)
    requires forall i :: 0 <= i < |cs| && cs[i].Some? ==> cs[i].value.isLeaf
    ensures LeafTotals(Concat(ChildLists(cs))) == ChildTotals(cs)
    decreases |cs|
  {
    if cs != [] {
      var init := cs[..|cs| - 1];
      LeafChildrenTotals(init);
      SlotsSnoc(cs);
      var last := SlotLeaves(cs[|cs| - 1]);
      LeafTotalsAppend(Concat(ChildLists(init)), last);
      if cs[|cs| - 1].Some? {
        LeafTotalsOne(cs[|cs| - 1].value);
      } else {
        PlusNone(ChildTotals(init));
      }
    }
  }

  lemma {:induction false} LeafChildrenCount(cs: seq<Option<OctreeNode>>)
    requires forall i :: 0 <= i < |cs| && cs[i].Some? ==> cs[i].value.isLeaf
    ensures |Concat(ChildLists(cs))| == Occupied(cs)
    decreases |cs|
  {
    if cs != [] {
      LeafChildrenCount(cs[..|cs| - 1]);
      SlotsSnoc(cs);
    }
  }

  /** Children with bounded sums and at least one pixel each add up to bounded sums with at least one pixel per occupied slot. */
  lemma {:induction false} ChildTotalsBounded(cs: seq<Option<OctreeNode>>)
    requires forall i :: 0 <= i < |cs| && cs[i].Some? ==> cs[i].value.childrenCount > 0 && Bounded(cs[i].value.Stats())
    ensures Bounded(ChildTotals(cs))
    ensures ChildTotals(cs).count >= Occupied(cs)
    decreases |cs|
  {
    if cs != [] {
      ChildTotalsBounded(cs[..|cs| - 1]);
    }
  }

  lemma {:induction false} OccupiedPositive(cs: seq<Option<OctreeNode>>, i: nat)
    requires i < |cs| && cs[i].Some?
    ensures Occupied(cs) > 0
    decreases |cs|
  {
    if i < |cs| - 1 {
      OccupiedPositive(cs[..|cs| - 1], i);
    }
  }

  /**
   * Folding a reducible node yields a valid leaf whose sums and count are
   * the totals over the leaves it replaces; the node had one leaf per
   * occupied slot, so the tree's leaf count changes by `1 - Occupied`.
   */
  lemma FoldSpec(n: OctreeNode, level: nat)
    requires Valid(n, level) && Reducible(n)
    ensures Valid(Fold(n), level)
    ensures LeafList(Fold(n)) == [Fold(n)]
    ensures Fold(n).Stats() == LeafTotals(LeafList(n))
    ensures |LeafList(n)| == Occupied(n.children)
  {
    LeafChildrenTotals(n.children);
    LeafChildrenCount(n.children);
    ChildTotalsBounded(n.children);
    var i :| 0 <= i < Fanout && n.children[i].Some?;
    OccupiedPositive(n.children, i);
  }

  /** A leaf folded again: zero sums, no count. */
  lemma FoldLeafEmpties(n: OctreeNode)
    requires Valid(n, LeafLevel) && n.isLeaf
    ensures Fold(n).Stats() == NoTotals
  {
    ZeroChildTotals(n.children);
  }

  lemma {:induction false} ZeroChildTotals(cs: seq<Option<OctreeNode>>)
    requires forall i :: 0 <= i < |cs| ==> cs[i].None?
    ensures ChildTotals(cs) == NoTotals
    decreases |cs|
  {
    if cs != [] {
      ZeroChildTotals(cs[..|cs| - 1]);
    }
  }

  /** Every leaf of a valid tree has at least one pixel and bounded sums. */
  lemma {:induction false} ValidLeaves(n: OctreeNode, level: nat)
    requires Valid(n, level)
    ensures Populated(LeafList(n))
    decreases n
  {
    if !n.isLeaf {
      var lists := ChildLists(n.children);
      forall i | 0 <= i < |lists|
        ensures Populated(lists[i])
      {
        ChildListsAt(n.children, i);
        if n.children[i].Some? {
          ValidLeaves(n.children[i].value, level + 1);
        }
      }
      ConcatPopulated(lists);
    }
  }

  ghost predicate Populated(ls: seq<OctreeNode>)
  {
    forall i :: 0 <= i < |ls| ==> ls[i].childrenCount > 0 && Bounded(ls[i].Stats())
  }

  lemma {:induction false} ConcatPopulated(ss: seq<seq<OctreeNode>>)
    requires forall i :: 0 <= i < |ss| ==> Populated(ss[i])
    ensures Populated(Concat(ss))
    decreases |ss|
  {
    if ss != [] {
      ConcatPopulated(ss[..|ss| - 1]);
    }
  }

  /** Every node of a valid tree is valid at its own depth. */
  lemma {:induction false} ValidAt(n: OctreeNode, level: nat, p: seq<nat>)
    requires Valid(n, level) && NodeAt(n, p).Some?
    ensures Valid(NodeAt(n, p).value, level + |p|)
    decreases |p|
  {
    if p != [] {
      ValidAt(n.children[p[0]].value, level + 1, p[1..]);
    }
  }

  /** One more step along a path: into slot `j` of the node reached so far. */
  lemma {:induction false} NodeAtSnoc(n: OctreeNode, p: seq<nat>, j: nat)
    requires NodeAt(n, p).Some?
    ensures var m := NodeAt(n, p).value;
      NodeAt(n, p + [j]) == if !m.isLeaf && j < |m.children| && m.children[j].Some? then Some(m.children[j].value) else None
    decreases |p|
  {
    if p == [] {
      assert ([] + [j])[1..] == [];
    } else {
      assert (p + [j])[0] == p[0] && (p + [j])[1..] == p[1..] + [j];
      NodeAtSnoc(n.children[p[0]].value, p[1..], j);
    }
  }

  /** A child's leaves are among its parent's. */
  lemma ChildLeavesBound(n: OctreeNode, i: nat)
    requires !n.isLeaf && i < |n.children| && n.children[i].Some?
    ensures |LeafList(n.children[i].value)| <= |LeafList(n)|
  {
    ConcatSplit(ChildLists(n.children), i);
    ChildListsAt(n.children, i);
  }

  /** A subtree's leaves are among the tree's. */
  lemma {:induction false} SubtreeLeaves(n: OctreeNode, p: seq<nat>)
    requires NodeAt(n, p).Some?
    ensures |LeafList(NodeAt(n, p).value)| <= |LeafList(n)|
    decreases |p|
  {
    if p != [] {
      SubtreeLeaves(n.children[p[0]].value, p[1..]);
      ChildLeavesBound(n, p[0]);
    }
  }

  /** An internal node with leaves below it has an occupied slot. */
  lemma InternalHasChild(n: OctreeNode)
    requires !n.isLeaf && |LeafList(n)| > 0
    ensures exists i :: 0 <= i < |n.children| && n.children[i].Some?
  {
    if forall i :: 0 <= i < |n.children| ==> n.children[i].None? {
      EmptyChildLists(n.children);
    }
  }

  /** A leaf is the only node a path into it reaches. */
  lemma LeafNodeAt(n: OctreeNode, p: seq<nat>)
    requires n.isLeaf
    ensures NodeAt(n, p) == if p == [] then Some(n) else None
  {
  }

  lemma {:induction false} OccupiedPrefix(cs: seq<Option<OctreeNode>>, k: nat)
    requires k <= |cs|
    ensures Occupied(cs[..k]) <= Occupied(cs)
    decreases |cs|
  {
    if k < |cs| {
      assert cs[..|cs| - 1][..k] == cs[..k];
      OccupiedPrefix(cs[..|cs| - 1], k);
    } else {
      assert cs[..k] == cs;
    }
  }

  /** One more slot taken into the totals and the count of occupied slots. */
  lemma SlotsPrefixSnoc(cs: seq<Option<OctreeNode>>, i: nat)
    requires i < |cs|
    ensures Occupied(cs[..i + 1]) <= Occupied(cs)
    ensures Occupied(cs[..i + 1]) == Occupied(cs[..i]) + (if cs[i].Some? then 1 else 0)
    ensures ChildTotals(cs[..i + 1])
         == if cs[i].Some? then ChildTotals(cs[..i]).Plus(cs[i].value.Stats()) else ChildTotals(cs[..i])
  {
    assert cs[..i + 1][..i] == cs[..i];
    OccupiedPrefix(cs, i + 1);
  }
}
