/**
 * `OctreeNode::colors_stats`: every leaf is finalized into its averaged
 * colour, written as a `#rrggbbaa` key, and its pixel count is added to
 * the record entry under that key.
 */
module OctreeStats {
  import opened Colors
  import opened HexKey
  import opened Ranking
  import opened OctreeNodes

  /** The averaged colour of a leaf: each channel sum divided by the pixel count, cast to `u8`. */
  function LeafColor(leaf: OctreeNode): RgbaColor
    requires leaf.childrenCount > 0
  {
    MeanColor(leaf.Stats())
  }

  /** The record as `colors_stats` leaves it after visiting `leaves` in order. */
  function CollectStats(rec: Record, leaves: seq<OctreeNode>): Record
    requires Populated(leaves)
  {
    if leaves == [] then rec
    else
      var last := leaves[|leaves| - 1];
      Upsert(CollectStats(rec, leaves[..|leaves| - 1]), FormatKey(LeafColor(last)), last.childrenCount)
  }

  /** The pixels of the leaves whose colour is written under `key`. */
  function KeyCount(leaves: seq<OctreeNode>, key: string): nat
    requires Populated(leaves)
  {
    if leaves == [] then 0
    else
      var last := leaves[|leaves| - 1];
      KeyCount(leaves[..|leaves| - 1], key) + (if FormatKey(LeafColor(last)) == key then last.childrenCount else 0)
  }

  /** The keys the leaves are written under. */
  function LeafKeys(leaves: seq<OctreeNode>): set<string>
    requires Populated(leaves)
  {
    if leaves == [] then {}
    else LeafKeys(leaves[..|leaves| - 1]) + {FormatKey(LeafColor(leaves[|leaves| - 1]))}
  }

  /** Every key is the formatting of some colour. */
  ghost predicate KeysFormatted(rec: Record)
  {
    forall e :: e in rec ==> exists c :: e.key == FormatKey(c)
  }

  lemma {:induction false} KeysMember(rec: Record, e: Entry)
    requires e in rec
    ensures e.key in Keys(rec)
  {
    if rec[0] != e {
      KeysMember(rec[1..], e);
    }
  }

  lemma {:induction false} MemberKeys(rec: Record, key: string)
    requires key in Keys(rec)
    ensures exists e :: e in rec && e.key == key
  {
    if rec[0].key != key {
      MemberKeys(rec[1..], key);
      var e :| e in rec[1..] && e.key == key;
      assert e in rec;
    }
  }

  lemma LeafKeysFormatted(leaves: seq<OctreeNode>, key: string)
    requires Populated(leaves) && key in LeafKeys(leaves)
    ensures exists c :: key == FormatKey(c)
  {
    if key != FormatKey(LeafColor(leaves[|leaves| - 1])) {
      LeafKeysFormatted(leaves[..|leaves| - 1], key);
    }
  }

  /**
   * Visiting the leaves merges them into the record: each key gains the
   * pixels of the leaves written under it, no other key changes, the keys
   * stay in ascending order and the stored counts grow by the leaves'
   * total pixel count.
   */
  lemma {:induction false} CollectStatsSpec(rec: Record, leaves: seq<OctreeNode>)
    requires KeysAscending(rec) && Populated(leaves)
    ensures KeysAscending(CollectStats(rec, leaves))
    ensures forall key :: Get(CollectStats(rec, leaves), key) == Get(rec, key) + KeyCount(leaves, key)
    ensures Keys(CollectStats(rec, leaves)) == Keys(rec) + LeafKeys(leaves)
    ensures Total(CollectStats(rec, leaves)) == Total(rec) + LeafTotals(leaves).count
  {
    if leaves != [] {
      var init, last := leaves[..|leaves| - 1], leaves[|leaves| - 1];
      var key := FormatKey(LeafColor(last));
      var before := CollectStats(rec, init);
      CollectStatsSpec(rec, init);
      UpsertAscending(before, key, last.childrenCount);
      forall other
        ensures Get(CollectStats(rec, leaves), other) == Get(rec, other) + KeyCount(leaves, other)
      {
        UpsertContents(before, key, last.childrenCount, other);
      }
      UpsertContents(before, key, last.childrenCount, key);
    }
  }

  /** Visiting two runs of leaves one after the other. */
  lemma {:induction false} CollectStatsAppend(rec: Record, ls: seq<OctreeNode>, ms: seq<OctreeNode>)
    requires Populated(ls) && Populated(ms)
    ensures Populated(ls + ms)
    ensures CollectStats(rec, ls + ms) == CollectStats(CollectStats(rec, ls), ms)
    decreases |ms|
  {
    PopulatedAppend(ls, ms);
    if ms != [] {
      var init := ms[..|ms| - 1];
      assert (ls + ms)[..|ls + ms| - 1] == ls + init;
      assert (ls + ms)[|ls + ms| - 1] == ms[|ms| - 1];
      CollectStatsAppend(rec, ls, init);
    } else {
      assert ls + ms == ls;
    }
  }

  lemma PopulatedAppend(ls: seq<OctreeNode>, ms: seq<OctreeNode>)
    requires Populated(ls) && Populated(ms)
    ensures Populated(ls + ms)
  {
    forall i | 0 <= i < |ls + ms|
      ensures (ls + ms)[i].childrenCount > 0 && Bounded((ls + ms)[i].Stats())
    {
      if i < |ls| {
        assert (ls + ms)[i] == ls[i];
      } else {
        assert (ls + ms)[i] == ms[i - |ls|];
      }
    }
  }

  /** A record built from an empty one holds formatted keys, ascending, with counts summing to the leaves' pixels. */
  lemma RecordOfLeaves(leaves: seq<OctreeNode>)
    requires Populated(leaves)
    ensures KeysAscending(CollectStats([], leaves))
    ensures KeysFormatted(CollectStats([], leaves))
    ensures Total(CollectStats([], leaves)) == LeafTotals(leaves).count
  {
    var rec := CollectStats([], leaves);
    CollectStatsSpec([], leaves);
    forall e | e in rec
      ensures exists c :: e.key == FormatKey(c)
    {
      KeysMember(rec, e);
      LeafKeysFormatted(leaves, e.key);
    }
  }

  /** The leaves of the first `k` slots of a valid internal node have at least one pixel each. */
  lemma SlotsPopulated(n: OctreeNode, level: nat, k: nat)
    requires Valid(n, level) && !n.isLeaf && k <= Fanout
    ensures Populated(Concat(ChildLists(n.children[..k])))
  {
    var lists := ChildLists(n.children[..k]);
    forall j | 0 <= j < |lists|
      ensures Populated(lists[j])
    {
      ChildListsAt(n.children[..k], j);
      if n.children[j].Some? {
        ValidLeaves(n.children[j].value, level + 1);
      }
    }
    ConcatPopulated(lists);
  }

  /**
   * `colors_stats`: a leaf adds its pixel count under the key of its
   * averaged colour; an internal node visits its child slots in order.
   * The record ends up as visiting the tree's leaves in slot order makes it.
   */
  method ColorsStats(n: OctreeNode, ghost level: nat, record: Record) returns (record': Record)
    requires Valid(n, level)
    ensures Populated(LeafList(n))
    ensures record' == CollectStats(record, LeafList(n))
    decreases n
  {
    ValidLeaves(n, level);
    if n.isLeaf {
      var color := RgbaColor(Truncate8(n.r / n.childrenCount), Truncate8(n.g / n.childrenCount),
                             Truncate8(n.b / n.childrenCount), Truncate8(n.a / n.childrenCount));
      var key := FormatKey(color);
      record' := Upsert(record, key, n.childrenCount);
      LeafStats(n, level, record);
      return;
    }
    record' := record;
    assert n.children[..0] == [];
    for i := 0 to Fanout
      invariant Populated(Concat(ChildLists(n.children[..i])))
      invariant record' == CollectStats(record, Concat(ChildLists(n.children[..i])))
    {
      SlotStats(n, level, i, record);
      if n.children[i].Some? {
        record' := ColorsStats(n.children[i].value, level + 1, record');
      }
    }
    assert n.children[..Fanout] == n.children;
  }

  lemma LeafStats(n: OctreeNode, level: nat, record: Record)
    requires Valid(n, level) && n.isLeaf
    ensures Populated(LeafList(n))
    ensures CollectStats(record, LeafList(n)) == Upsert(record, FormatKey(LeafColor(n)), n.childrenCount)
  {
    assert LeafList(n) == [n] && [n][..0] == [];
  }

  /** One more child slot visited. */
  lemma SlotStats(n: OctreeNode, level: nat, i: nat, record: Record)
    requires Valid(n, level) && !n.isLeaf && i < Fanout
    ensures Populated(Concat(ChildLists(n.children[..i]))) && Populated(Concat(ChildLists(n.children[..i + 1])))
    ensures n.children[i].Some? ==>
      && Valid(n.children[i].value, level + 1)
      && Populated(LeafList(n.children[i].value))
      && CollectStats(record, Concat(ChildLists(n.children[..i + 1])))
         == CollectStats(CollectStats(record, Concat(ChildLists(n.children[..i]))), LeafList(n.children[i].value))
    ensures n.children[i].None? ==> Concat(ChildLists(n.children[..i + 1])) == Concat(ChildLists(n.children[..i]))
  {
    ghost var done := Concat(ChildLists(n.children[..i]));
    SlotsPopulated(n, level, i);
    SlotsPopulated(n, level, i + 1);
    assert n.children[..i + 1][..i] == n.children[..i];
    SlotsSnoc(n.children[..i + 1]);
    if n.children[i].Some? {
      ValidLeaves(n.children[i].value, level + 1);
      CollectStatsAppend(record, done, LeafList(n.children[i].value));
    } else {
      assert done + [] == done;
    }
  }
}
