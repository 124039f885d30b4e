/**
 * The record map of the octree quantizer (`BTreeMap<String, u32>`, kept
 * as an association list in ascending key order, which is the order Rust
 * iterates it in) and the ranking pipeline of `get_primary_colors`:
 * parse every key, stable-sort by count descending, take the first N.
 */
module Ranking {
  import opened Wrappers
  import opened Colors
  import opened HexKey

  datatype Entry = Entry(key: string, count: nat)

  type Record = seq<Entry>

  /** The map's own invariant: each key is below the next, so keys are unique and ascending. */
  ghost predicate KeysAscending(rec: Record)
  {
    forall i :: 0 <= i < |rec| - 1 ==> StrLess(rec[i].key, rec[i + 1].key)
  }

  lemma {:induction false} KeysAscendingPairwise(rec: Record, i: nat, j: nat)
    requires KeysAscending(rec)
    requires i < j < |rec|
    ensures StrLess(rec[i].key, rec[j].key)
    decreases j - i
  {
    if i + 1 < j {
      KeysAscendingPairwise(rec, i + 1, j);
      StrLessTransitive(rec[i].key, rec[i + 1].key, rec[j].key);
    }
  }

  /** The value stored under `key`, 0 when absent (what `or_insert(0)` would create). */
  function Get(rec: Record, key: string): nat
  {
    if rec == [] then 0
    else if rec[0].key == key then rec[0].count
    else Get(rec[1..], key)
  }

  function Keys(rec: Record): set<string>
  {
    if rec == [] then {} else {rec[0].key} + Keys(rec[1..])
  }

  /** The sum of all stored counts. */
  function Total(rec: Record): nat
  {
    if rec == [] then 0 else rec[0].count + Total(rec[1..])
  }

  /** `*record.entry(key).or_insert(0) += n` */
  function Upsert(rec: Record, key: string, n: nat): Record
  {
    if rec == [] then [Entry(key, n)]
    else if rec[0].key == key then [Entry(key, rec[0].count + n)] + rec[1..]
    else if StrLess(key, rec[0].key) then [Entry(key, n)] + rec
    else [rec[0]] + Upsert(rec[1..], key, n)
  }

  lemma {:induction false} GetAbsent(rec: Record, key: string)
    requires key !in Keys(rec)
    ensures Get(rec, key) == 0
  {
    if rec != [] {
      GetAbsent(rec[1..], key);
    }
  }

  lemma {:induction false} BelowFirstAbsent(rec: Record, key: string)
    requires KeysAscending(rec)
    requires rec != [] && StrLess(key, rec[0].key)
    ensures key !in Keys(rec)
  {
    StrLessIrreflexive(key);
    if |rec| > 1 {
      StrLessTransitive(key, rec[0].key, rec[1].key);
      BelowFirstAbsent(rec[1..], key);
    }
  }

  /**
   * Upserting adds `n` to the count under `key` (starting from 0 when the
   * key is new), leaves every other key's count alone, adds exactly `key`
   * to the key set and raises the total by `n`.
   */
  lemma {:induction false} UpsertContents(rec: Record, key: string, n: nat, other: string)
    requires KeysAscending(rec)
    ensures Get(Upsert(rec, key, n), key) == Get(rec, key) + n
    ensures other != key ==> Get(Upsert(rec, key, n), other) == Get(rec, other)
    ensures Keys(Upsert(rec, key, n)) == Keys(rec) + {key}
    ensures Total(Upsert(rec, key, n)) == Total(rec) + n
  {
    var u := Upsert(rec, key, n);
    if rec == [] {
      assert u[1..] == [];
    } else if rec[0].key == key {
      assert u[1..] == rec[1..];
    } else if StrLess(key, rec[0].key) {
      assert u[1..] == rec;
      BelowFirstAbsent(rec, key);
      GetAbsent(rec, key);
    } else {
      assert u[1..] == Upsert(rec[1..], key, n);
      UpsertContents(rec[1..], key, n, other);
    }
  }

  /** Upserting keeps the keys ascending. */
  lemma {:induction false} UpsertAscending(rec: Record, key: string, n: nat)
    requires KeysAscending(rec)
    ensures KeysAscending(Upsert(rec, key, n))
    ensures Upsert(rec, key, n)[0].key == key || (rec != [] && Upsert(rec, key, n)[0].key == rec[0].key)
  {
    var u := Upsert(rec, key, n);
    if rec == [] {
    } else if rec[0].key == key {
      assert u[1..] == rec[1..];
    } else if StrLess(key, rec[0].key) {
      assert u[1..] == rec;
    } else {
      var tail := Upsert(rec[1..], key, n);
      assert u[1..] == tail;
      UpsertAscending(rec[1..], key, n);
      StrLessTotal(key, rec[0].key);
      assert StrLess(rec[0].key, tail[0].key);
    }
  }

  /** A record entry read back as a colour with its count. */
  datatype Ranked = Ranked(color: RgbaColor, count: nat)

  /** Every key of the record parses (the `unwrap()`s of the source do not fail). */
  ghost predicate KeysParse(rec: Record)
  {
    forall e :: e in rec ==> ParseKey(e.key).Some?
  }

  /** Each record entry with its key parsed back to a colour, its count kept, in record order. */
  function ParseEntries(rec: Record): (out: seq<Ranked>)
    requires KeysParse(rec)
    ensures |out| == |rec|
    ensures forall i :: 0 <= i < |rec| ==>
      ParseKey(rec[i].key) == Some(out[i].color) && out[i].count == rec[i].count
  {
    if rec == [] then []
    else
      assert rec[0] in rec;
      assert KeysParse(rec[1..]) by {
        forall e | e in rec[1..] ensures ParseKey(e.key).Some? { assert e in rec; }
      }
      [Ranked(ParseKey(rec[0].key).value, rec[0].count)] + ParseEntries(rec[1..])
  }

  /** Each count is at least the next one. */
  ghost predicate CountsDescending(s: seq<Ranked>)
  {
    forall i :: 0 <= i < |s| - 1 ==> s[i].count >= s[i + 1].count
  }

  /**
   * The order a stable descending sort produces from ascending colours:
   * each element has a larger count than the next, or the same count and a
   * smaller colour.
   */
  ghost predicate RankOrdered(s: seq<Ranked>)
  {
    forall i :: 0 <= i < |s| - 1 ==> RankBefore(s[i], s[i + 1])
  }

  ghost predicate RankBefore(x: Ranked, y: Ranked)
  {
    x.count > y.count || (x.count == y.count && ColorLess(x.color, y.color))
  }

  /**
   * Inserts `x` in front of the first element whose count is not larger,
   * so that it stays ahead of later elements with an equal count.
   */
  function InsertByCount(x: Ranked, s: seq<Ranked>): seq<Ranked>
  {
    if s == [] || x.count >= s[0].count then [x] + s
    else [s[0]] + InsertByCount(x, s[1..])
  }

  /** `result.sort_by(|a, b| b.1.cmp(&a.1))`: stable, by count descending. */
  function SortByCount(s: seq<Ranked>): seq<Ranked>
  {
    if s == [] then [] else InsertByCount(s[0], SortByCount(s[1..]))
  }

  lemma {:induction false} InsertByCountPermutes(x: Ranked, s: seq<Ranked>)
    ensures multiset(InsertByCount(x, s)) == multiset(s) + multiset{x}
    ensures InsertByCount(x, s)[0] == x || (s != [] && InsertByCount(x, s)[0] == s[0])
  {
    if s != [] && x.count < s[0].count {
      InsertByCountPermutes(x, s[1..]);
      assert s == [s[0]] + s[1..];
    }
  }

  lemma {:induction false} InsertByCountDescending(x: Ranked, s: seq<Ranked>)
    requires CountsDescending(s)
    ensures CountsDescending(InsertByCount(x, s))
  {
    if s != [] && x.count < s[0].count {
      InsertByCountDescending(x, s[1..]);
      InsertByCountPermutes(x, s[1..]);
      var t := InsertByCount(x, s[1..]);
      assert InsertByCount(x, s) == [s[0]] + t;
    }
  }

  /** The sort returns a permutation of its input, ordered by non-increasing count. */
  lemma {:induction false} SortByCountSpec(s: seq<Ranked>)
    ensures multiset(SortByCount(s)) == multiset(s)
    ensures CountsDescending(SortByCount(s))
  {
    if s != [] {
      SortByCountSpec(s[1..]);
      InsertByCountPermutes(s[0], SortByCount(s[1..]));
      InsertByCountDescending(s[0], SortByCount(s[1..]));
      assert s == [s[0]] + s[1..];
    }
  }

  lemma {:induction false} InsertByCountStable(x: Ranked, s: seq<Ranked>)
    requires RankOrdered(s)
    requires forall y :: y in s ==> ColorLess(x.color, y.color)
    ensures RankOrdered(InsertByCount(x, s))
  {
    if s != [] {
      assert s[0] in s;
      if x.count < s[0].count {
        assert forall y :: y in s[1..] ==> y in s;
        InsertByCountStable(x, s[1..]);
        InsertByCountPermutes(x, s[1..]);
        var t := InsertByCount(x, s[1..]);
        assert InsertByCount(x, s) == [s[0]] + t;
      }
    }
  }

  /** Colours strictly ascending. */
  ghost predicate ColorsAscending(s: seq<Ranked>)
  {
    forall i :: 0 <= i < |s| - 1 ==> ColorLess(s[i].color, s[i + 1].color)
  }

  lemma {:induction false} FirstColorLeast(s: seq<Ranked>, y: Ranked)
    requires ColorsAscending(s) && |s| > 1
    requires y in s[1..]
    ensures ColorLess(s[0].color, y.color)
  {
    if y != s[1] {
      assert y in s[2..] by { assert s[1..] == [s[1]] + s[2..]; }
      FirstColorLeast(s[1..], y);
    }
  }

  /**
   * Stability: when the input colours are ascending, which is how the
   * record map yields them, equal counts come out in ascending colour order.
   */
  lemma {:induction false} SortByCountStable(s: seq<Ranked>)
    requires ColorsAscending(s)
    ensures RankOrdered(SortByCount(s))
  {
    if s != [] {
      SortByCountStable(s[1..]);
      SortByCountSpec(s[1..]);
      forall y | y in SortByCount(s[1..]) ensures ColorLess(s[0].color, y.color) {
        assert y in multiset(s[1..]);
        FirstColorLeast(s, y);
      }
      InsertByCountStable(s[0], SortByCount(s[1..]));
    }
  }

  function Min(x: nat, y: nat): nat { if x <= y then x else y }

  /** The colours of the first `n` ranked entries, or of all of them when there are fewer. */
  function TakeColors(s: seq<Ranked>, n: nat): (out: seq<RgbaColor>)
    ensures |out| == Min(n, |s|)
    ensures forall i :: 0 <= i < |out| ==> out[i] == s[i].color
  {
    seq(Min(n, |s|), i requires 0 <= i < Min(n, |s|) => s[i].color)
  }

  /** The primary colours: the `n` most frequent record colours. */
  function Rank(rec: Record, n: nat): seq<RgbaColor>
    requires KeysParse(rec)
  {
    TakeColors(SortByCount(ParseEntries(rec)), n)
  }

  /** Formatted keys in ascending order parse to ascending colours. */
  lemma ParsedColorsAscending(rec: Record)
    requires KeysAscending(rec)
    requires forall e :: e in rec ==> exists c :: e.key == FormatKey(c)
    ensures KeysParse(rec)
    ensures ColorsAscending(ParseEntries(rec))
  {
    forall e | e in rec ensures ParseKey(e.key).Some? {
      var c :| e.key == FormatKey(c);
      KeyRoundTrip(c);
    }
    var p := ParseEntries(rec);
    forall i | 0 <= i < |p| - 1 ensures ColorLess(p[i].color, p[i + 1].color) {
      assert rec[i] in rec && rec[i + 1] in rec;
      var ci :| rec[i].key == FormatKey(ci);
      var cj :| rec[i + 1].key == FormatKey(cj);
      KeyRoundTrip(ci);
      KeyRoundTrip(cj);
      KeyOrder(ci, cj);
    }
  }

  /**
   * The ranking of a record built from formatted keys: it holds
   * min(n, number of distinct keys) colours, read in order off a
   * permutation of the parsed record in which counts never increase and
   * equal counts keep ascending colour order.
   */
  lemma RankSpec(rec: Record, n: nat)
    requires KeysAscending(rec)
    requires forall e :: e in rec ==> exists c :: e.key == FormatKey(c)
    ensures KeysParse(rec)
    ensures |Rank(rec, n)| == Min(n, |rec|)
    ensures RankOrdered(SortByCount(ParseEntries(rec)))
    ensures multiset(SortByCount(ParseEntries(rec))) == multiset(ParseEntries(rec))
    ensures forall i :: 0 <= i < |Rank(rec, n)| ==> Rank(rec, n)[i] == SortByCount(ParseEntries(rec))[i].color
  {
    ParsedColorsAscending(rec);
    SortByCountStable(ParseEntries(rec));
    SortByCountSpec(ParseEntries(rec));
    assert |SortByCount(ParseEntries(rec))| == |rec| by {
      assert |multiset(SortByCount(ParseEntries(rec)))| == |multiset(ParseEntries(rec))|;
    }
  }
}
