/**
 * The aggregation stages the analytics reports are built from: `$group` with
 * `{ $sum: 1 }` (one group per distinct key, counting its occurrences),
 * `$sort` on the count or on the key, and `$limit`.
 */
module Reports {
  import opened Sorting

  /** One output document of `{ $group: { _id: <key>, count: { $sum: 1 } } }`. */
  datatype Group<K> = Group(key: K, count: nat)

  function KeysOf<K>(gs: seq<Group<K>>): (ks: seq<K>)
    ensures |ks| == |gs| && forall i :: 0 <= i < |gs| ==> ks[i] == gs[i].key
  {
    seq(|gs|, i requires 0 <= i < |gs| => gs[i].key)
  }

  /** The count recorded for key `k`, or 0 when `gs` has no group for it. */
  function CountOf<K(==)>(gs: seq<Group<K>>, k: K): nat {
    if gs == [] then 0 else if gs[0].key == k then gs[0].count else CountOf(gs[1..], k)
  }

  lemma {:induction false} CountOfAt<K>(gs: seq<Group<K>>, i: int)
    requires Distinct(KeysOf(gs)) && 0 <= i < |gs|
    ensures CountOf(gs, gs[i].key) == gs[i].count
  {
    if i > 0 {
      assert KeysOf(gs)[0] != KeysOf(gs)[i];
      assert KeysOf(gs[1..]) == KeysOf(gs)[1..];
      CountOfAt(gs[1..], i - 1);
    }
  }

  lemma {:induction false} CountOfAbsent<K>(gs: seq<Group<K>>, k: K)
    requires k !in KeysOf(gs)
    ensures CountOf(gs, k) == 0
  {
    if gs != [] {
      assert KeysOf(gs[1..]) == KeysOf(gs)[1..];
      CountOfAbsent(gs[1..], k);
    }
  }

  /** Adds one occurrence of `k`: increments its group, or appends a new group of 1. */
  function Bump<K(==,!new)>(gs: seq<Group<K>>, k: K): (r: seq<Group<K>>)
    requires Distinct(KeysOf(gs))
    ensures Distinct(KeysOf(r))
    ensures forall x :: x in KeysOf(r) <==> x in KeysOf(gs) || x == k
    ensures forall x :: CountOf(r, x) == CountOf(gs, x) + (if x == k then 1 else 0)
    ensures (forall i :: 0 <= i < |gs| ==> gs[i].count >= 1) ==> forall i :: 0 <= i < |r| ==> r[i].count >= 1
  {
    if gs == [] then
      assert KeysOf([Group(k, 1)]) == [k];
      [Group(k, 1)]
    else if gs[0].key == k then
      var r := [Group(k, gs[0].count + 1)] + gs[1..];
      assert KeysOf(r) == KeysOf(gs);
      assert forall x :: x != k ==> CountOf(r, x) == CountOf(gs[1..], x);
      r
    else
      assert KeysOf(gs[1..]) == KeysOf(gs)[1..];
      var rest := Bump(gs[1..], k);
      var r := [gs[0]] + rest;
      assert KeysOf(r) == [gs[0].key] + KeysOf(rest);
      assert gs[0].key !in KeysOf(rest);
      r
  }

  /**
   * `$group` by key with `{ $sum: 1 }`: one group per distinct key, in order of
   * first occurrence, whose count is the number of occurrences of its key.
   */
  function GroupCount<K(==,!new)>(keys: seq<K>): (gs: seq<Group<K>>)
    ensures Distinct(KeysOf(gs))
    ensures forall x :: x in KeysOf(gs) <==> x in keys
    ensures forall i :: 0 <= i < |gs| ==> gs[i].count == multiset(keys)[gs[i].key] >= 1
  {
    if keys == [] then []
    else
      var init := keys[..|keys| - 1];
      var last := keys[|keys| - 1];
      assert keys == init + [last];
      var prev := GroupCount(init);
      var gs := Bump(prev, last);
      forall x ensures CountOf(prev, x) == multiset(init)[x] {
        if x in KeysOf(prev) {
          var i :| 0 <= i < |prev| && prev[i].key == x;
          CountOfAt(prev, i);
        } else {
          CountOfAbsent(prev, x);
        }
      }
      forall i | 0 <= i < |gs| ensures gs[i].count == multiset(keys)[gs[i].key] {
        CountOfAt(gs, i);
      }
      gs
  }

  /** `{ $sort: { count: -1 } }`: larger counts first. */
  predicate ByCountDesc<K>(a: Group<K>, b: Group<K>) { a.count >= b.count }

  /** `{ $sort: { _id: 1 } }` on an integer key. */
  predicate ByKeyAsc(a: Group<int>, b: Group<int>) { a.key <= b.key }

  lemma {:induction false} ByCountDescIsPreorder<K(!new)>()
    ensures TotalPreorder(ByCountDesc<K>)
  {
  }

  lemma {:induction false} ByKeyAscIsPreorder()
    ensures TotalPreorder(ByKeyAsc)
  {
  }

  /** Every group of `gs` counts the occurrences of its key in `keys`. */
  ghost predicate CountsIn<K>(gs: seq<Group<K>>, keys: seq<K>) {
    forall g :: g in gs ==> g.key in keys && g.count == multiset(keys)[g.key]
  }

  /**
   * `r` reports the `n` most frequent keys: at most `n` groups with distinct
   * keys, largest counts first, each counting its key, and a key left out
   * occurs no more often than any group reported (and only when `n` were).
   */
  ghost predicate IsTop<K(!new)>(r: seq<Group<K>>, keys: seq<K>, n: nat) {
    && |r| <= n && SortedBy(r, ByCountDesc) && Distinct(KeysOf(r)) && CountsIn(r, keys)
    && forall k :: k in keys && k !in KeysOf(r) ==>
         |r| == n && forall g :: g in r ==> multiset(keys)[k] <= g.count
  }

  /** `r` has exactly one group for each distinct key, counting its occurrences. */
  ghost predicate IsComplete<K(!new)>(r: seq<Group<K>>, keys: seq<K>) {
    && Distinct(KeysOf(r)) && CountsIn(r, keys)
    && forall k :: k in keys <==> k in KeysOf(r)
  }

  /** Groups with distinct keys and key-determined counts are pairwise different. */
  lemma {:induction false} DistinctKeysDistinctGroups<K>(gs: seq<Group<K>>)
    requires Distinct(KeysOf(gs))
    ensures Distinct(gs)
  {
    forall i, j | 0 <= i < j < |gs| ensures gs[i] != gs[j] {
      assert KeysOf(gs)[i] != KeysOf(gs)[j];
    }
  }

  lemma {:induction false} DistinctGroupsDistinctKeys<K>(gs: seq<Group<K>>, keys: seq<K>)
    requires Distinct(gs) && CountsIn(gs, keys)
    ensures Distinct(KeysOf(gs))
  {
    forall i, j | 0 <= i < j < |gs| ensures KeysOf(gs)[i] != KeysOf(gs)[j] {
      assert gs[i] in gs && gs[j] in gs;
    }
  }

  /**
   * `$group` then `$sort: { count: -1 }`: every distinct key exactly once,
   * largest counts first, each group counting its key.
   */
  function RankedCounts<K(==,!new)>(keys: seq<K>): (r: seq<Group<K>>)
    ensures SortedBy(r, ByCountDesc)
    ensures IsComplete(r, keys)
  {
    var gs := GroupCount(keys);
    ByCountDescIsPreorder<K>();
    var s := SortBy(gs, ByCountDesc);
    SortedCountsIn(keys, gs, s);
    SameKeys(gs, s);
    s
  }

  /**
   * `$group`, `$sort: { count: -1 }`, `$limit: n`: at most `n` groups, largest
   * counts first, each counting its key; a key that is left out occurs no more
   * often than any group that was reported.
   */
  function TopCounts<K(==,!new)>(keys: seq<K>, n: nat): (r: seq<Group<K>>)
    ensures IsTop(r, keys, n)
  {
    var s := RankedCounts(keys);
    var r := Take(s, n);
    PrefixKeeps(keys, s, r);
    forall k | k in keys && k !in KeysOf(r)
      ensures |r| == n && forall g :: g in r ==> multiset(keys)[k] <= g.count
    {
      LeftOutIsSmaller(keys, s, n, k);
    }
    r
  }

  /** A prefix of a sorted report keeps its order, counts and distinct keys. */
  lemma {:induction false} PrefixKeeps<K>(keys: seq<K>, s: seq<Group<K>>, r: seq<Group<K>>)
    requires |r| <= |s| && forall i :: 0 <= i < |r| ==> r[i] == s[i]
    requires SortedBy(s, ByCountDesc) && CountsIn(s, keys) && Distinct(KeysOf(s))
    ensures SortedBy(r, ByCountDesc) && CountsIn(r, keys) && Distinct(KeysOf(r))
  {
    forall g | g in r ensures g in s {
      var i :| 0 <= i < |r| && r[i] == g;
      assert s[i] == g;
    }
    forall i, j | 0 <= i < j < |r| ensures KeysOf(r)[i] != KeysOf(r)[j] {
      assert KeysOf(s)[i] != KeysOf(s)[j];
    }
  }

  /** In a count-descending report cut to `n` groups, a key that was cut counts no more than any kept group. */
  lemma {:induction false} LeftOutIsSmaller<K>(keys: seq<K>, s: seq<Group<K>>, n: nat, k: K)
    requires SortedBy(s, ByCountDesc) && CountsIn(s, keys)
    requires k in keys && k in KeysOf(s) && k !in KeysOf(Take(s, n))
    ensures |Take(s, n)| == n
    ensures forall g :: g in Take(s, n) ==> multiset(keys)[k] <= g.count
  {
    var r := Take(s, n);
    var j :| 0 <= j < |s| && s[j].key == k;
    assert s[j] in s;
    assert j >= |r| by {
      assert forall m :: 0 <= m < |r| ==> KeysOf(r)[m] != k;
    }
    forall g | g in r ensures multiset(keys)[k] <= g.count {
      var m :| 0 <= m < |r| && r[m] == g;
      assert ByCountDesc(s[m], s[j]);
    }
  }

  /** A sort of the groups keeps their counts and the distinctness of their keys. */
  lemma {:induction false} SortedCountsIn<K>(keys: seq<K>, gs: seq<Group<K>>, s: seq<Group<K>>)
    requires Distinct(KeysOf(gs))
    requires forall i :: 0 <= i < |gs| ==> gs[i].key in keys && gs[i].count == multiset(keys)[gs[i].key]
    requires multiset(s) == multiset(gs)
    ensures CountsIn(s, keys) && Distinct(KeysOf(s))
  {
    forall g | g in s ensures g.key in keys && g.count == multiset(keys)[g.key] {
      assert g in multiset(gs);
    }
    DistinctKeysDistinctGroups(gs);
    DistinctPermutation(gs, s);
    DistinctGroupsDistinctKeys(s, keys);
  }

  /**
   * `$group` on an integer key then `$sort: { _id: 1 }`: one group per distinct
   * key, each counting its key, in strictly increasing key order.
   */
  function CountsByKey(keys: seq<int>): (r: seq<Group<int>>)
    ensures IsComplete(r, keys)
    ensures forall i, j :: 0 <= i < j < |r| ==> r[i].key < r[j].key
  {
    var gs := GroupCount(keys);
    ByKeyAscIsPreorder();
    var s := SortBy(gs, ByKeyAsc);
    SortedCountsIn(keys, gs, s);
    SameKeys(gs, s);
    StrictlyAscending(s);
    s
  }

  /** Sorted by key with no key twice: the keys strictly increase. */
  lemma {:induction false} StrictlyAscending(s: seq<Group<int>>)
    requires SortedBy(s, ByKeyAsc) && Distinct(KeysOf(s))
    ensures forall i, j :: 0 <= i < j < |s| ==> s[i].key < s[j].key
  {
    forall i, j | 0 <= i < j < |s| ensures s[i].key < s[j].key {
      assert ByKeyAsc(s[i], s[j]) && KeysOf(s)[i] != KeysOf(s)[j];
    }
  }

  /** The sum of the counts of a report. */
  function Total<K>(gs: seq<Group<K>>): nat {
    if gs == [] then 0 else gs[0].count + Total(gs[1..])
  }

  /** Each occurrence added by `Bump` adds one to the total. */
  lemma {:induction false} TotalBump<K(!new)>(gs: seq<Group<K>>, k: K)
    requires Distinct(KeysOf(gs))
    ensures Total(Bump(gs, k)) == Total(gs) + 1
  {
    if gs != [] && gs[0].key != k {
      assert KeysOf(gs[1..]) == KeysOf(gs)[1..];
      TotalBump(gs[1..], k);
    }
  }

  /** Grouping loses and invents no occurrence: the counts add up to the number of keys. */
  lemma {:induction false} TotalGroupCount<K(!new)>(keys: seq<K>)
    ensures Total(GroupCount(keys)) == |keys|
  {
    if keys != [] {
      var init := keys[..|keys| - 1];
      TotalGroupCount(init);
      TotalBump(GroupCount(init), keys[|keys| - 1]);
    }
  }

  lemma {:induction false} TotalInsert<K(!new)>(x: Group<K>, s: seq<Group<K>>, le: (Group<K>, Group<K>) -> bool)
    requires TotalPreorder(le) && SortedBy(s, le)
    ensures Total(Insert(x, s, le)) == x.count + Total(s)
  {
    if s != [] && !le(x, s[0]) {
      TotalInsert(x, s[1..], le);
    }
  }

  /** Sorting a report keeps its total. */
  lemma {:induction false} TotalSortBy<K(!new)>(s: seq<Group<K>>, le: (Group<K>, Group<K>) -> bool)
    requires TotalPreorder(le)
    ensures Total(SortBy(s, le)) == Total(s)
  {
    if s != [] {
      TotalSortBy(s[1..], le);
      TotalInsert(s[0], SortBy(s[1..], le), le);
    }
  }

  /** A limited report counts no more than the whole. */
  lemma {:induction false} TakeTotal<K>(s: seq<Group<K>>, n: nat)
    ensures Total(Take(s, n)) <= Total(s)
  {
    if |s| > n && n > 0 {
      assert Take(s, n)[1..] == Take(s[1..], n - 1);
      TakeTotal(s[1..], n - 1);
    }
  }

  /** A complete report counts every key once: its counts add up to the number of keys. */
  lemma {:induction false} RankedCountsTotal<K(!new)>(keys: seq<K>)
    ensures Total(RankedCounts(keys)) == |keys|
  {
    ByCountDescIsPreorder<K>();
    TotalSortBy(GroupCount(keys), ByCountDesc);
    TotalGroupCount(keys);
  }

  /** The same for the report sorted by key. */
  lemma {:induction false} CountsByKeyTotal(keys: seq<int>)
    ensures Total(CountsByKey(keys)) == |keys|
  {
    ByKeyAscIsPreorder();
    TotalSortBy(GroupCount(keys), ByKeyAsc);
    TotalGroupCount(keys);
  }

  /** Permuting the groups permutes their keys. */
  lemma {:induction false} SameKeys<K>(gs: seq<Group<K>>, s: seq<Group<K>>)
    requires multiset(s) == multiset(gs)
    ensures forall k :: k in KeysOf(gs) <==> k in KeysOf(s)
  {
    forall k | k in KeysOf(gs) ensures k in KeysOf(s) {
      var i :| 0 <= i < |gs| && gs[i].key == k;
      assert gs[i] in multiset(s);
      var j :| 0 <= j < |s| && s[j] == gs[i];
      assert KeysOf(s)[j] == k;
    }
    forall k | k in KeysOf(s) ensures k in KeysOf(gs) {
      var i :| 0 <= i < |s| && s[i].key == k;
      assert s[i] in multiset(gs);
      var j :| 0 <= j < |gs| && gs[j] == s[i];
      assert KeysOf(gs)[j] == k;
    }
  }
}
