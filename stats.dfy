/** The dashboard figures of `getStats`: the record count, the two page
    sums, the most common tag and the three most recently updated records. */
module Stats {
  import opened Wrappers
  import opened Records
  import opened Sorting

  datatype Stats = Stats(
    total: nat,
    totalPages: int,
    totalPagesRead: int,
    favoriteCategory: string,
    lastInteracted: seq<Record>)

  // ---------------------------------------------------------------------------
  // Sums
  // ---------------------------------------------------------------------------

  /** `records.reduce((sum, r) => sum + (r.pages || 0), 0)`: never negative
      while no page count is. */
  function SumPages(rs: seq<Record>): (total: int)
    ensures (forall i :: 0 <= i < |rs| ==> rs[i].pages.GetOr(0) >= 0) ==> total >= 0
  {
    if rs == [] then 0 else SumPages(rs[..|rs| - 1]) + rs[|rs| - 1].pages.GetOr(0)
  }

  /** `records.reduce((sum, r) => sum + (r.pagesRead || 0), 0)`: never
      negative while no count of pages read is. */
  function SumPagesRead(rs: seq<Record>): (total: int)
    ensures (forall i :: 0 <= i < |rs| ==> rs[i].pagesRead >= 0) ==> total >= 0
  {
    if rs == [] then 0 else SumPagesRead(rs[..|rs| - 1]) + rs[|rs| - 1].pagesRead
  }

  /** Both sums split over a concatenation. */
  lemma {:induction false} SumsAppend(a: seq<Record>, b: seq<Record>)
    ensures SumPages(a + b) == SumPages(a) + SumPages(b)
    ensures SumPagesRead(a + b) == SumPagesRead(a) + SumPagesRead(b)
  {
    if b == [] {
      assert a + b == a;
    } else {
      var init := b[..|b| - 1];
      SumsAppend(a, init);
      assert (a + b)[..|a + b| - 1] == a + init;
    }
  }

  // ---------------------------------------------------------------------------
  // Favourite category
  // ---------------------------------------------------------------------------

  /** How many records carry tag `t` (`tagCounts[t]`, 0 when undefined). */
  function Count(rs: seq<Record>, t: string): (c: nat)
    ensures c <= |rs|
    ensures c == 0 <==> forall i :: 0 <= i < |rs| ==> rs[i].tag != t
  {
    if rs == [] then 0
    else Count(rs[..|rs| - 1], t) + (if rs[|rs| - 1].tag == t then 1 else 0)
  }

  /** The tag of every record, in order. */
  function Tags(rs: seq<Record>): (tags: seq<string>)
    ensures |tags| == |rs| && forall i :: 0 <= i < |rs| ==> tags[i] == rs[i].tag
  {
    seq(|rs|, i requires 0 <= i < |rs| => rs[i].tag)
  }

  /** Some record tagged `a` comes before every record tagged `b`. */
  predicate AppearsBefore(rs: seq<Record>, a: string, b: string) {
    exists p :: 0 <= p < |rs| && rs[p].tag == a && forall q :: 0 <= q <= p ==> rs[q].tag != b
  }

  /** `keys` lists tags in the order their first records come in `rs`. */
  predicate InFirstAppearanceOrder(rs: seq<Record>, keys: seq<string>) {
    forall i, j :: 0 <= i < j < |keys| ==> AppearsBefore(rs, keys[i], keys[j])
  }

  /** Appending a record keeps the order of the tags seen so far. */
  lemma AppearsBeforeExtends(init: seq<Record>, r: Record, a: string, b: string)
    requires AppearsBefore(init, a, b)
    ensures AppearsBefore(init + [r], a, b)
  {
    var p :| 0 <= p < |init| && init[p].tag == a && forall q :: 0 <= q <= p ==> init[q].tag != b;
    assert (init + [r])[p] == init[p];
    forall q | 0 <= q <= p
      ensures (init + [r])[q].tag != b
    {
      assert (init + [r])[q] == init[q];
    }
  }

  /** A tag first seen in the appended record comes after every tag seen before. */
  lemma AppearsBeforeNew(init: seq<Record>, r: Record, a: string)
    requires a in Tags(init) && r.tag !in Tags(init)
    ensures AppearsBefore(init + [r], a, r.tag)
  {
    var p :| 0 <= p < |init| && Tags(init)[p] == a;
    forall q | 0 <= q <= p
      ensures (init + [r])[q].tag != r.tag
    {
      assert (init + [r])[q] == init[q] && Tags(init)[q] == init[q].tag;
    }
    assert (init + [r])[p] == init[p];
  }

  /** `Object.keys(tagCounts)`: each tag once, in order of first appearance. */
  function TagKeys(rs: seq<Record>): (keys: seq<string>)
    ensures forall i, j :: 0 <= i < j < |keys| ==> keys[i] != keys[j]
    ensures forall t :: t in keys <==> t in Tags(rs)
    ensures InFirstAppearanceOrder(rs, keys)
  {
    if rs == [] then []
    else
      var init := rs[..|rs| - 1];
      var r := rs[|rs| - 1];
      var keys := TagKeys(init);
      assert rs == init + [r];
      assert Tags(rs) == Tags(init) + [r.tag];
      var result := if r.tag in keys then keys else keys + [r.tag];
      assert InFirstAppearanceOrder(rs, result) by {
        forall i, j | 0 <= i < j < |result|
          ensures AppearsBefore(rs, result[i], result[j])
        {
          if j < |keys| {
            AppearsBeforeExtends(init, r, keys[i], keys[j]);
          } else {
            AppearsBeforeNew(init, r, keys[i]);
          }
        }
      }
      result
  }

  /** One step of the reduce: `tagCounts[a] > tagCounts[b] ? a : b`. */
  function Better(rs: seq<Record>, a: string, b: string): string {
    if Count(rs, a) > Count(rs, b) then a else b
  }

  /** The reduce over `keys` from the accumulator `acc`: it ends on the
      accumulator or on one of the keys, never on a smaller count than the
      accumulator's. */
  function Reduce(rs: seq<Record>, acc: string, keys: seq<string>): (r: string)
    ensures r == acc || r in keys
    ensures Count(rs, acc) <= Count(rs, r)
    decreases |keys|
  {
    if keys == [] then acc else Reduce(rs, Better(rs, acc, keys[0]), keys[1..])
  }

  /** The reduce picks the last of the keys with the greatest count, unless
      the accumulator it starts from beats them all. */
  lemma {:induction false} ReduceResult(rs: seq<Record>, acc: string, keys: seq<string>)
    ensures var r := Reduce(rs, acc, keys);
      && (r == acc || r in keys)
      && Count(rs, acc) <= Count(rs, r)
      && (forall j :: 0 <= j < |keys| ==> Count(rs, keys[j]) <= Count(rs, r))
      && (forall j :: 0 <= j < |keys| && Count(rs, keys[j]) == Count(rs, r) ==> keys[j] == r || r in keys[j + 1..])
      && (r !in keys ==> forall j :: 0 <= j < |keys| ==> Count(rs, keys[j]) < Count(rs, acc))
    decreases |keys|
  {
    if keys != [] {
      var next := Better(rs, acc, keys[0]);
      var tail := keys[1..];
      ReduceResult(rs, next, tail);
      var r := Reduce(rs, acc, keys);
      assert r == Reduce(rs, next, tail);
      forall j | 0 <= j < |keys| && Count(rs, keys[j]) == Count(rs, r)
        ensures keys[j] == r || r in keys[j + 1..]
      {
        if j == 0 {
          if r !in tail {
            assert r == next;
          } else {
            assert keys[1..] == tail;
          }
        } else {
          assert keys[j] == tail[j - 1] && keys[j + 1..] == tail[j..];
        }
      }
      forall j | 0 <= j < |keys|
        ensures Count(rs, keys[j]) <= Count(rs, r)
      {
        if j > 0 {
          assert keys[j] == tail[j - 1];
        }
      }
      if r !in keys {
        forall j | 0 <= j < |keys|
          ensures Count(rs, keys[j]) < Count(rs, acc)
        {
          if j > 0 {
            assert keys[j] == tail[j - 1];
          }
        }
      }
    }
  }

  /** `Object.keys(tagCounts).reduce(..., 'None')`. */
  function Favorite(rs: seq<Record>): (f: string)
    ensures rs == [] ==> f == "None"
    ensures rs != [] ==> f in Tags(rs)
    ensures forall i :: 0 <= i < |rs| ==> Count(rs, rs[i].tag) <= Count(rs, f)
  {
    var keys := TagKeys(rs);
    ReduceResult(rs, "None", keys);
    var f := Reduce(rs, "None", keys);
    assert rs != [] ==> f in keys by {
      if rs != [] {
        assert Tags(rs)[0] == rs[0].tag;
        assert rs[0].tag in keys;
      }
    }
    forall i | 0 <= i < |rs|
      ensures Count(rs, rs[i].tag) <= Count(rs, f)
    {
      assert Tags(rs)[i] == rs[i].tag;
      assert rs[i].tag in keys;
    }
    f
  }

  /** Ties go to the tag whose first record comes later: of two tags with
      the greatest count, the earlier one is never chosen. */
  lemma FavoriteTiesGoLater(rs: seq<Record>, j: nat)
    requires j < |TagKeys(rs)|
    requires Count(rs, TagKeys(rs)[j]) == Count(rs, Favorite(rs))
    ensures TagKeys(rs)[j] == Favorite(rs) || Favorite(rs) in TagKeys(rs)[j + 1..]
  {
    ReduceResult(rs, "None", TagKeys(rs));
  }

  // ---------------------------------------------------------------------------
  // Recently updated
  // ---------------------------------------------------------------------------

  /** A list sorted by `updatedAt`, most recent first. */
  lemma {:induction false} ByRecency(s: seq<Record>)
    requires Sorted(s, ByUpdatedAt, Desc)
    ensures forall i, j :: 0 <= i < j < |s| ==> s[i].updatedAt >= s[j].updatedAt
  {
    forall i, j | 0 <= i < j < |s|
      ensures s[i].updatedAt >= s[j].updatedAt
    {
      assert !Before(s[j], s[i], ByUpdatedAt, Desc);
    }
  }

  /** Cutting a recency-sorted list leaves nothing more recent behind. */
  lemma {:induction false} PrefixIsMostRecent(s: seq<Record>, m: nat)
    requires m <= |s|
    requires forall i, j :: 0 <= i < j < |s| ==> s[i].updatedAt >= s[j].updatedAt
    ensures multiset(s) == multiset(s[..m]) + multiset(s[m..])
    ensures forall x, y :: x in multiset(s[m..]) && y in s[..m] ==> x.updatedAt <= y.updatedAt
  {
    assert s == s[..m] + s[m..];
    forall x, y | x in multiset(s[m..]) && y in s[..m]
      ensures x.updatedAt <= y.updatedAt
    {
      var a :| 0 <= a < |s[m..]| && s[m..][a] == x;
      var b :| 0 <= b < m && s[..m][b] == y;
      assert s[b] == y && s[m + a] == x;
    }
  }

  /** The first `m` records of a recency-sorted permutation of `rs` are
      `m` of the most recent records of `rs`, most recent first. */
  lemma RecentPrefix(rs: seq<Record>, sorted: seq<Record>, m: nat)
    requires multiset(sorted) == multiset(rs) && Sorted(sorted, ByUpdatedAt, Desc)
    requires m <= |rs|
    ensures |sorted| == |rs| && |sorted[..m]| == m
    ensures multiset(sorted[..m]) <= multiset(rs)
    ensures forall i, j :: 0 <= i < j < m ==> sorted[..m][i].updatedAt >= sorted[..m][j].updatedAt
    ensures forall x, y :: x in multiset(rs) - multiset(sorted[..m]) && y in sorted[..m] ==> x.updatedAt <= y.updatedAt
  {
    assert |sorted| == |multiset(sorted)| == |multiset(rs)| == |rs|;
    ByRecency(sorted);
    PrefixIsMostRecent(sorted, m);
    assert multiset(rs) - multiset(sorted[..m]) == multiset(sorted[m..]);
  }

  /** The `updatedAt`-descending copy, cut to its first three records. */
  function LastInteracted(rs: seq<Record>): (li: seq<Record>)
    ensures |li| == if |rs| < 3 then |rs| else 3
    ensures multiset(li) <= multiset(rs)
    ensures forall i, j :: 0 <= i < j < |li| ==> li[i].updatedAt >= li[j].updatedAt
    ensures forall x, y :: x in multiset(rs) - multiset(li) && y in li ==> x.updatedAt <= y.updatedAt
  {
    var sorted := Sort(rs, ByUpdatedAt, Desc);
    var m := if |rs| < 3 then |rs| else 3;
    SortSorted(rs, ByUpdatedAt, Desc);
    RecentPrefix(rs, sorted, m);
    sorted[..m]
  }

  // ---------------------------------------------------------------------------
  // getStats
  // ---------------------------------------------------------------------------

  function GetStats(rs: seq<Record>): (s: Stats)
    ensures s.total == |rs| && s.favoriteCategory == Favorite(rs)
    ensures s.totalPages == SumPages(rs) && s.totalPagesRead == SumPagesRead(rs)
    ensures s.lastInteracted == LastInteracted(rs)
  {
    Stats(|rs|, SumPages(rs), SumPagesRead(rs), Favorite(rs), LastInteracted(rs))
  }

  /** The figures of an empty collection. */
  lemma EmptyStats()
    ensures GetStats([]) == Stats(0, 0, 0, "None", [])
  {
  }

  /** Appending a record adds one to the count, its page count (0 if
      missing) to `totalPages` and its pages read to `totalPagesRead`. */
  lemma StatsAfterAppend(rs: seq<Record>, r: Record)
    ensures GetStats(rs + [r]).total == GetStats(rs).total + 1
    ensures GetStats(rs + [r]).totalPages == GetStats(rs).totalPages + r.pages.GetOr(0)
    ensures GetStats(rs + [r]).totalPagesRead == GetStats(rs).totalPagesRead + r.pagesRead
  {
    assert (rs + [r])[..|rs|] == rs;
  }
}
