/** The read-only aggregates of the upload catalogue: `GET /uploads/summary` and
    `GET /uploads/count` (grouped counts ordered by count, descending, and the total) and
    `GET /industries` (the distinct industries). */
module Aggregates {
  import opened Uploads

  /** How many entries of `keys` equal `k` (`COUNT(*)` of one group). */
  function Count<K(==)>(keys: seq<K>, k: K): nat {
    if keys == [] then 0 else Count(keys[..|keys| - 1], k) + (if keys[|keys| - 1] == k then 1 else 0)
  }

  predicate NoDuplicates<K(==)>(ks: seq<K>) {
    forall i, j | 0 <= i < j < |ks| :: ks[i] != ks[j]
  }

  /** Each value of `keys` once, in the order of its first occurrence. */
  function Distinct<K(==)>(keys: seq<K>): (r: seq<K>)
    ensures NoDuplicates(r)
    ensures forall k | k in r :: k in keys
    ensures forall k | k in keys :: k in r
  {
    if keys == [] then []
    else
      var d := Distinct(keys[..|keys| - 1]);
      var last := keys[|keys| - 1];
      assert forall k | k in keys[..|keys| - 1] :: k in keys;
      assert forall k | k in keys :: k in keys[..|keys| - 1] || k == last;
      if last in d then d else d + [last]
  }

  lemma {:induction false} CountAbsent<K>(keys: seq<K>, k: K)
    requires k !in keys
    ensures Count(keys, k) == 0
  {
    if keys != [] {
      assert forall x | x in keys[..|keys| - 1] :: x in keys;
      CountAbsent(keys[..|keys| - 1], k);
    }
  }

  /** One result row of a grouped count. */
  datatype Group<K> = Group(key: K, uploadCount: nat)

  /** `SELECT key, COUNT(*) ... GROUP BY key`, before ordering. */
  function Groups<K(==)>(keys: seq<K>): seq<Group<K>> {
    var d := Distinct(keys);
    seq(|d|, i requires 0 <= i < |d| => Group(d[i], Count(keys, d[i])))
  }

  predicate SortedByCountDesc<K>(gs: seq<Group<K>>) {
    forall i, j | 0 <= i < j < |gs| :: gs[i].uploadCount >= gs[j].uploadCount
  }

  /** Places `g` before the first group with a smaller count. */
  function InsertByCount<K>(g: Group<K>, gs: seq<Group<K>>): (r: seq<Group<K>>)
    requires SortedByCountDesc(gs)
    ensures SortedByCountDesc(r)
    ensures multiset(r) == multiset(gs) + multiset{g}
    ensures forall x | x in r :: x == g || x in gs
  {
    if gs == [] || gs[0].uploadCount < g.uploadCount then
      HeadIsLargest(gs);
      ConsSorted(g, gs);
      [g] + gs
    else
      var rest := InsertByCount(g, gs[1..]);
      assert gs == [gs[0]] + gs[1..];
      HeadIsLargest(gs);
      ConsSorted(gs[0], rest);
      [gs[0]] + rest
  }

  /** In a list sorted by descending count no group counts more than the first. */
  lemma HeadIsLargest<K>(gs: seq<Group<K>>)
    requires SortedByCountDesc(gs)
    ensures forall x | x in gs :: x.uploadCount <= gs[0].uploadCount
  {
    forall x | x in gs ensures x.uploadCount <= gs[0].uploadCount {
      var i :| 0 <= i < |gs| && gs[i] == x;
    }
  }

  /** A group counting at least as much as every group of a sorted list can go in front. */
  lemma ConsSorted<K>(h: Group<K>, rest: seq<Group<K>>)
    requires SortedByCountDesc(rest)
    requires forall x | x in rest :: x.uploadCount <= h.uploadCount
    ensures SortedByCountDesc([h] + rest)
  {
    var r := [h] + rest;
    forall i, j | 0 <= i < j < |r| ensures r[i].uploadCount >= r[j].uploadCount {
      assert r[j] == rest[j - 1];
      if i > 0 { assert r[i] == rest[i - 1]; }
    }
  }

  /** No two groups share a key. */
  ghost predicate KeysDistinct<K>(gs: seq<Group<K>>) {
    forall i, j | 0 <= i < j < |gs| :: gs[i].key != gs[j].key
  }

  /** Putting a group with a new key in front keeps keys distinct. */
  lemma ConsKeepsKeysDistinct<K>(g: Group<K>, gs: seq<Group<K>>)
    requires KeysDistinct(gs) && forall x | x in gs :: x.key != g.key
    ensures KeysDistinct([g] + gs)
  {
    var r := [g] + gs;
    forall i, j | 0 <= i < j < |r| ensures r[i].key != r[j].key {
      assert r[j] == gs[j - 1];
      if i > 0 {
        assert r[i] == gs[i - 1];
      }
    }
  }

  lemma TailKeysDistinct<K>(gs: seq<Group<K>>)
    requires gs != [] && KeysDistinct(gs)
    ensures KeysDistinct(gs[1..]) && forall x | x in gs[1..] :: x.key != gs[0].key
  {
    forall x | x in gs[1..] ensures x.key != gs[0].key {
      var i :| 0 <= i < |gs[1..]| && gs[1..][i] == x;
      assert gs[i + 1] == x;
    }
  }

  /** Inserting a group whose key is new keeps keys distinct. */
  lemma {:induction false} InsertKeepsKeysDistinct<K>(g: Group<K>, gs: seq<Group<K>>)
    requires SortedByCountDesc(gs) && KeysDistinct(gs)
    requires forall x | x in gs :: x.key != g.key
    ensures KeysDistinct(InsertByCount(g, gs))
  {
    if gs == [] || gs[0].uploadCount < g.uploadCount {
      ConsKeepsKeysDistinct(g, gs);
    } else {
      TailKeysDistinct(gs);
      assert forall x | x in gs[1..] :: x in gs;
      InsertKeepsKeysDistinct(g, gs[1..]);
      var rest := InsertByCount(g, gs[1..]);
      assert forall x | x in rest :: x == g || x in gs[1..];
      ConsKeepsKeysDistinct(gs[0], rest);
    }
  }

  /** `ORDER BY upload_count DESC`; MySQL leaves the order of equal counts open and this is
      one of the allowed orders. */
  function SortByCountDesc<K>(gs: seq<Group<K>>): (r: seq<Group<K>>)
    ensures SortedByCountDesc(r)
    ensures multiset(r) == multiset(gs)
  {
    if gs == [] then []
    else
      assert gs == [gs[0]] + gs[1..];
      InsertByCount(gs[0], SortByCountDesc(gs[1..]))
  }

  function SummaryKeys(rows: seq<Upload>): seq<(string, string)> {
    seq(|rows|, i requires 0 <= i < |rows| => (rows[i].design, rows[i].frontDepth))
  }

  function DesignKeys(rows: seq<Upload>): seq<string> {
    seq(|rows|, i requires 0 <= i < |rows| => rows[i].design)
  }

  /** `GET /uploads/summary`: one group per (design, front_depth) pair. */
  function Summary(rows: seq<Upload>): (r: seq<Group<(string, string)>>)
    ensures SortedByCountDesc(r) && KeysDistinct(r)
    ensures forall g | g in r :: g.uploadCount == Count(SummaryKeys(rows), g.key) && g.uploadCount >= 1
  {
    GroupedCounts(SummaryKeys(rows));
    SortByCountDesc(Groups(SummaryKeys(rows)))
  }

  /** `design_counts` of `GET /uploads/count`: one group per design. */
  function DesignCounts(rows: seq<Upload>): (r: seq<Group<string>>)
    ensures SortedByCountDesc(r) && KeysDistinct(r)
    ensures forall g | g in r :: g.uploadCount == Count(DesignKeys(rows), g.key) && g.uploadCount >= 1
  {
    GroupedCounts(DesignKeys(rows));
    SortByCountDesc(Groups(DesignKeys(rows)))
  }

  /** `total_uploads`: `COUNT(*)` over the table, 0 for an empty table. */
  function TotalUploads(rows: seq<Upload>): (n: nat)
    ensures rows == [] ==> n == 0
  {
    |rows|
  }

  /** `GET /industries`: each industry once. */
  function Industries(rows: seq<Upload>): (r: seq<string>)
    ensures NoDuplicates(r)
    ensures forall s :: s in r <==> exists i | 0 <= i < |rows| :: rows[i].industry == s
  {
    var industries := seq(|rows|, i requires 0 <= i < |rows| => rows[i].industry);
    assert forall i | 0 <= i < |rows| :: industries[i] == rows[i].industry;
    Distinct(industries)
  }

  /** The grouped counts, whatever their order: each group key occurs in the table, every key
      of the table has exactly one group, and each group's count is the number of rows with
      that key, in descending order of count. */
  lemma {:induction false} GroupedCounts<K>(keys: seq<K>)
    ensures var gs := SortByCountDesc(Groups(keys));
      && SortedByCountDesc(gs)
      && (forall g | g in gs :: g.key in keys && g.uploadCount == Count(keys, g.key) && g.uploadCount >= 1)
      && (forall k | k in keys :: exists g | g in gs :: g.key == k)
      && KeysDistinct(gs)
  {
    var d := Distinct(keys);
    var unsorted := Groups(keys);
    var gs := SortByCountDesc(unsorted);
    forall g | g in gs ensures g.key in keys && g.uploadCount == Count(keys, g.key) && g.uploadCount >= 1 {
      assert g in multiset(unsorted);
      var i :| 0 <= i < |unsorted| && unsorted[i] == g;
      assert g.key == d[i];
      CountPresent(keys, g.key);
    }
    forall k | k in keys ensures exists g | g in gs :: g.key == k {
      var i :| 0 <= i < |d| && d[i] == k;
      assert unsorted[i] in multiset(gs);
    }
    forall i, j | 0 <= i < j < |unsorted| ensures unsorted[i].key != unsorted[j].key {
      assert d[i] != d[j];
    }
    SortKeepsKeysDistinct(unsorted);
  }

  /** `GET /uploads/summary` in terms of the table: a group for exactly the (design,
      front_depth) pairs that occur, once each, with the number of rows carrying the pair, in
      descending order of that number. */
  lemma SummaryMeaning(rows: seq<Upload>)
    ensures var s := Summary(rows);
      && SortedByCountDesc(s) && KeysDistinct(s)
      && (forall g | g in s :: g.uploadCount == Count(SummaryKeys(rows), g.key) && g.uploadCount >= 1)
      && (forall g | g in s :: exists i | 0 <= i < |rows| :: (rows[i].design, rows[i].frontDepth) == g.key)
      && (forall i | 0 <= i < |rows| :: exists g | g in s :: g.key == (rows[i].design, rows[i].frontDepth))
  {
    var keys := SummaryKeys(rows);
    GroupedCounts(keys);
    forall g | g in Summary(rows) ensures exists i | 0 <= i < |rows| :: (rows[i].design, rows[i].frontDepth) == g.key {
      var i :| 0 <= i < |keys| && keys[i] == g.key;
    }
    forall i | 0 <= i < |rows| ensures exists g | g in Summary(rows) :: g.key == (rows[i].design, rows[i].frontDepth) {
      assert keys[i] in keys;
    }
  }

  /** `design_counts` in terms of the table: a group for exactly the designs that occur, once
      each, with the number of rows carrying the design, in descending order of that number. */
  lemma DesignCountsMeaning(rows: seq<Upload>)
    ensures var s := DesignCounts(rows);
      && SortedByCountDesc(s) && KeysDistinct(s)
      && (forall g | g in s :: g.uploadCount == Count(DesignKeys(rows), g.key) && g.uploadCount >= 1)
      && (forall g | g in s :: exists i | 0 <= i < |rows| :: rows[i].design == g.key)
      && (forall i | 0 <= i < |rows| :: exists g | g in s :: g.key == rows[i].design)
  {
    var keys := DesignKeys(rows);
    GroupedCounts(keys);
    forall g | g in DesignCounts(rows) ensures exists i | 0 <= i < |rows| :: rows[i].design == g.key {
      var i :| 0 <= i < |keys| && keys[i] == g.key;
    }
    forall i | 0 <= i < |rows| ensures exists g | g in DesignCounts(rows) :: g.key == rows[i].design {
      assert keys[i] in keys;
    }
  }

  lemma {:induction false} CountPresent<K>(keys: seq<K>, k: K)
    requires k in keys
    ensures Count(keys, k) >= 1
  {
    var init := keys[..|keys| - 1];
    if keys[|keys| - 1] != k {
      assert k in init by {
        var i :| 0 <= i < |keys| && keys[i] == k;
        assert init[i] == k;
      }
      CountPresent(init, k);
    }
  }

  /** Ordering groups whose keys are distinct keeps them distinct. */
  lemma {:induction false} SortKeepsKeysDistinct<K>(gs: seq<Group<K>>)
    requires KeysDistinct(gs)
    ensures KeysDistinct(SortByCountDesc(gs))
  {
    if gs != [] {
      var tail := gs[1..];
      TailKeysDistinct(gs);
      SortKeepsKeysDistinct(tail);
      var sorted := SortByCountDesc(tail);
      forall x | x in sorted ensures x.key != gs[0].key {
        assert x in multiset(tail);
      }
      InsertKeepsKeysDistinct(gs[0], sorted);
    }
  }

  function TotalCount<K>(gs: seq<Group<K>>): nat {
    if gs == [] then 0 else gs[0].uploadCount + TotalCount(gs[1..])
  }

  /** The counts of `design_counts` add up to `total_uploads`. */
  lemma DesignCountsAddUpToTotal(rows: seq<Upload>)
    ensures TotalCount(DesignCounts(rows)) == TotalUploads(rows)
  {
    var keys := DesignKeys(rows);
    CountsAddUp(keys);
    SortKeepsTotal(Groups(keys));
  }

  /** The counts of the summary add up to the number of uploads. */
  lemma SummaryAddsUpToTotal(rows: seq<Upload>)
    ensures TotalCount(Summary(rows)) == TotalUploads(rows)
  {
    var keys := SummaryKeys(rows);
    CountsAddUp(keys);
    SortKeepsTotal(Groups(keys));
  }

  lemma {:induction false} InsertKeepsTotal<K>(g: Group<K>, gs: seq<Group<K>>)
    requires SortedByCountDesc(gs)
    ensures TotalCount(InsertByCount(g, gs)) == g.uploadCount + TotalCount(gs)
  {
    if !(gs == [] || gs[0].uploadCount < g.uploadCount) {
      InsertKeepsTotal(g, gs[1..]);
      assert ([gs[0]] + InsertByCount(g, gs[1..]))[1..] == InsertByCount(g, gs[1..]);
    } else {
      assert ([g] + gs)[1..] == gs;
    }
  }

  lemma {:induction false} SortKeepsTotal<K>(gs: seq<Group<K>>)
    ensures TotalCount(SortByCountDesc(gs)) == TotalCount(gs)
  {
    if gs != [] {
      SortKeepsTotal(gs[1..]);
      InsertKeepsTotal(gs[0], SortByCountDesc(gs[1..]));
    }
  }

  /** Sum of `Count(keys, k)` over `ks`. */
  function CountOver<K(==)>(ks: seq<K>, keys: seq<K>): nat {
    if ks == [] then 0 else Count(keys, ks[0]) + CountOver(ks[1..], keys)
  }

  lemma {:induction false} GroupsTotal<K>(keys: seq<K>, ks: seq<K>)
    ensures TotalCount(seq(|ks|, i requires 0 <= i < |ks| => Group(ks[i], Count(keys, ks[i])))) == CountOver(ks, keys)
  {
    var gs := seq(|ks|, i requires 0 <= i < |ks| => Group(ks[i], Count(keys, ks[i])));
    if ks != [] {
      GroupsTotal(keys, ks[1..]);
      assert gs[1..] == seq(|ks[1..]|, i requires 0 <= i < |ks[1..]| => Group(ks[1..][i], Count(keys, ks[1..][i])));
    }
  }

  /** Adding one key adds one to the sum over distinct keys that contain it. */
  lemma {:induction false} CountOverSnoc<K>(ks: seq<K>, keys: seq<K>, x: K)
    requires NoDuplicates(ks)
    ensures CountOver(ks, keys + [x]) == CountOver(ks, keys) + (if x in ks then 1 else 0)
  {
    if ks != [] {
      assert (keys + [x])[..|keys + [x]| - 1] == keys;
      CountOverSnoc(ks[1..], keys, x);
      if x == ks[0] {
        assert x !in ks[1..] by {
          forall i | 0 <= i < |ks[1..]| ensures ks[1..][i] != x {
            assert ks[0] != ks[i + 1];
          }
        }
      }
    }
  }

  lemma {:induction false} CountOverSnocKey<K>(ks: seq<K>, keys: seq<K>, x: K)
    requires x !in keys
    ensures CountOver(ks + [x], keys) == CountOver(ks, keys)
  {
    if ks == [] {
      assert [] + [x] == [x];
      assert [x][1..] == [];
      CountAbsent(keys, x);
    } else {
      assert (ks + [x])[1..] == ks[1..] + [x];
      CountOverSnocKey(ks[1..], keys, x);
    }
  }

  /** Every row is counted in exactly one group. */
  lemma {:induction false} CountsAddUp<K>(keys: seq<K>)
    ensures TotalCount(Groups(keys)) == |keys|
  {
    GroupsTotal(keys, Distinct(keys));
    DistinctCountsAddUp(keys);
  }

  lemma {:induction false} DistinctCountsAddUp<K>(keys: seq<K>)
    ensures CountOver(Distinct(keys), keys) == |keys|
  {
    if keys != [] {
      var init := keys[..|keys| - 1];
      var x := keys[|keys| - 1];
      var d := Distinct(init);
      assert keys == init + [x];
      DistinctCountsAddUp(init);
      CountOverSnoc(Distinct(keys), init, x);
      if x !in d {
        CountOverSnocKey(d, init, x);
      }
    }
  }
}
