/** The copy-then-sort of `sortRecords` and of the `lastInteracted` list of
    `getStats`: a stable sort of records by one key, ascending or descending.
    The engine's `Array.prototype.sort` is stable, so for a given comparator
    its result is the one stable sorted permutation, which the insertion sort
    below computes. */
module Sorting {
  import opened Wrappers
  import opened Text
  import opened Records

  /** `direction === 'asc'` picks ascending; any other value descending. */
  datatype Direction = Asc | Desc

  function DirectionOf(direction: string): (d: Direction)
    ensures d == Asc <==> direction == "asc"
  {
    if direction == "asc" then Asc else Desc
  }

  /** The fields `sortRecords` handles (the `pages` branch and the string
      branch), and the `updatedAt` comparison of `getStats`. */
  datatype SortBy = ByPages | ByTitle | ByAuthor | ByTag | ByUpdatedAt

  /** A comparison key: numbers compare first, then the lower-cased text. */
  datatype Key = Key(num: int, text: string)

  /** `parseInt(pages) || 0` for the `pages` branch, `String(v).toLowerCase()`
      for the string branch, the timestamp for `updatedAt`. Numeric keys
      carry no text, a missing page count counts as 0, and text keys carry
      no capital letter, so case never decides the order. */
  function KeyOf(r: Record, sortBy: SortBy): (k: Key)
    ensures sortBy == ByPages || sortBy == ByUpdatedAt ==> k.text == ""
    ensures sortBy == ByPages && r.pages.None? ==> k.num == 0
    ensures sortBy == ByPages ==> k.num == r.pages.GetOr(0)
    ensures sortBy != ByPages && sortBy != ByUpdatedAt ==>
      k.num == 0 && forall i :: 0 <= i < |k.text| ==> !('A' <= k.text[i] <= 'Z')
  {
    match sortBy
    case ByPages => Key(r.pages.GetOr(0), "")
    case ByTitle => Key(0, Lower(r.title))
    case ByAuthor => Key(0, Lower(r.author))
    case ByTag => Key(0, Lower(r.tag))
    case ByUpdatedAt => Key(r.updatedAt, "")
  }

  predicate KeyLess(a: Key, b: Key) {
    a.num < b.num || (a.num == b.num && LexLess(a.text, b.text))
  }

  lemma KeyLessIrreflexive(a: Key)
    ensures !KeyLess(a, a)
  {
    LexLessIrreflexive(a.text);
  }

  lemma KeyLessTransitive(a: Key, b: Key, c: Key)
    requires KeyLess(a, b) && KeyLess(b, c)
    ensures KeyLess(a, c)
  {
    if a.num == b.num == c.num {
      LexLessTransitive(a.text, b.text, c.text);
    }
  }

  lemma KeyLessTotal(a: Key, b: Key)
    ensures a == b || KeyLess(a, b) || KeyLess(b, a)
  {
    LexLessTotal(a.text, b.text);
  }

  lemma KeyLessAsymmetric(a: Key, b: Key)
    ensures !(KeyLess(a, b) && KeyLess(b, a))
  {
    if KeyLess(a, b) && KeyLess(b, a) {
      KeyLessTransitive(a, b, a);
      KeyLessIrreflexive(a);
    }
  }

  /** If `a < c`, every `b` is above `a` or below `c`. */
  lemma KeyLessSplits(a: Key, b: Key, c: Key)
    requires KeyLess(a, c)
    ensures KeyLess(a, b) || KeyLess(b, c)
  {
    KeyLessTotal(a, b);
    if KeyLess(b, a) {
      KeyLessTransitive(b, a, c);
    }
  }

  /** The comparator returns a negative number: `x` goes strictly before `y`. */
  predicate Before(x: Record, y: Record, sortBy: SortBy, dir: Direction) {
    if dir == Asc then KeyLess(KeyOf(x, sortBy), KeyOf(y, sortBy)) else KeyLess(KeyOf(y, sortBy), KeyOf(x, sortBy))
  }

  /** No record is strictly before one that comes earlier. */
  predicate Sorted(s: seq<Record>, sortBy: SortBy, dir: Direction) {
    forall i, j :: 0 <= i < j < |s| ==> !Before(s[j], s[i], sortBy, dir)
  }

  /** The records of `s` whose key is `k`, in their order in `s`. */
  function WithKey(s: seq<Record>, sortBy: SortBy, k: Key): (r: seq<Record>)
    ensures |r| <= |s|
  {
    if s == [] then []
    else (if KeyOf(s[0], sortBy) == k then [s[0]] else []) + WithKey(s[1..], sortBy, k)
  }

  function Insert(x: Record, s: seq<Record>, sortBy: SortBy, dir: Direction): (r: seq<Record>)
    ensures multiset(r) == multiset(s) + multiset{x}
  {
    if s == [] then [x]
    else if Before(s[0], x, sortBy, dir) then
      assert s == [s[0]] + s[1..];
      [s[0]] + Insert(x, s[1..], sortBy, dir)
    else [x] + s
  }

  /** The stable sort: each record is inserted in front of the first
      record it does not come strictly after. */
  function Sort(s: seq<Record>, sortBy: SortBy, dir: Direction): (r: seq<Record>)
    ensures multiset(r) == multiset(s)
  {
    if s == [] then []
    else
      assert s == [s[0]] + s[1..];
      Insert(s[0], Sort(s[1..], sortBy, dir), sortBy, dir)
  }

  /** A record that no later record comes strictly before can head a sorted list. */
  lemma ConsSorted(y: Record, rest: seq<Record>, sortBy: SortBy, dir: Direction)
    requires Sorted(rest, sortBy, dir)
    requires forall j :: 0 <= j < |rest| ==> !Before(rest[j], y, sortBy, dir)
    ensures Sorted([y] + rest, sortBy, dir)
  {
    var r := [y] + rest;
    forall i, j | 0 <= i < j < |r|
      ensures !Before(r[j], r[i], sortBy, dir)
    {
      assert r[j] == rest[j - 1];
      if i > 0 {
        assert r[i] == rest[i - 1];
      }
    }
  }

  /** In a sorted list, nothing after the head comes before `x` unless the
      head does: `Before` against `x` is decided by the head. */
  lemma HeadDecides(x: Record, s: seq<Record>, sortBy: SortBy, dir: Direction, j: nat)
    requires Sorted(s, sortBy, dir) && 0 < j < |s|
    requires !Before(s[0], x, sortBy, dir)
    ensures !Before(s[j], x, sortBy, dir)
  {
    assert !Before(s[j], s[0], sortBy, dir);
    if dir == Asc {
      if KeyLess(KeyOf(s[j], sortBy), KeyOf(x, sortBy)) {
        KeyLessSplits(KeyOf(s[j], sortBy), KeyOf(s[0], sortBy), KeyOf(x, sortBy));
      }
    } else {
      if KeyLess(KeyOf(x, sortBy), KeyOf(s[j], sortBy)) {
        KeyLessSplits(KeyOf(x, sortBy), KeyOf(s[0], sortBy), KeyOf(s[j], sortBy));
      }
    }
  }

  /** Every record of the insertion result is one of `s` or `x` itself. */
  lemma InsertMember(x: Record, s: seq<Record>, sortBy: SortBy, dir: Direction, j: nat)
    requires j < |Insert(x, s, sortBy, dir)|
    ensures var y := Insert(x, s, sortBy, dir)[j]; y == x || y in s
  {
    var r := Insert(x, s, sortBy, dir);
    assert r[j] in multiset(r);
  }

  lemma {:induction false} InsertSorted(x: Record, s: seq<Record>, sortBy: SortBy, dir: Direction)
    requires Sorted(s, sortBy, dir)
    ensures Sorted(Insert(x, s, sortBy, dir), sortBy, dir)
  {
    if s == [] {
    } else if Before(s[0], x, sortBy, dir) {
      var rest := Insert(x, s[1..], sortBy, dir);
      InsertSorted(x, s[1..], sortBy, dir);
      forall j | 0 <= j < |rest|
        ensures !Before(rest[j], s[0], sortBy, dir)
      {
        InsertMember(x, s[1..], sortBy, dir, j);
        if rest[j] == x {
          KeyLessAsymmetric(KeyOf(s[0], sortBy), KeyOf(x, sortBy));
        } else {
          var k :| 0 <= k < |s[1..]| && s[1..][k] == rest[j];
          assert s[k + 1] == rest[j];
        }
      }
      ConsSorted(s[0], rest, sortBy, dir);
    } else {
      forall j | 0 <= j < |s|
        ensures !Before(s[j], x, sortBy, dir)
      {
        if j > 0 {
          HeadDecides(x, s, sortBy, dir, j);
        }
      }
      ConsSorted(x, s, sortBy, dir);
    }
  }

  lemma WithKeyCons(y: Record, rest: seq<Record>, sortBy: SortBy, k: Key)
    ensures WithKey([y] + rest, sortBy, k)
         == (if KeyOf(y, sortBy) == k then [y] else []) + WithKey(rest, sortBy, k)
  {
    assert ([y] + rest)[0] == y && ([y] + rest)[1..] == rest;
  }

  lemma SwapPastEmpty<T>(a: seq<T>, b: seq<T>, c: seq<T>)
    requires a == [] || b == []
    ensures a + (b + c) == b + (a + c)
  {
    if a == [] {
      assert a + (b + c) == b + c == b + (a + c);
    } else {
      assert a + (b + c) == a + c == b + (a + c);
    }
  }

  /** Two records that are not ordered either way share their key. */
  lemma UnorderedSameKey(x: Record, y: Record, sortBy: SortBy, dir: Direction, k: Key)
    requires KeyOf(x, sortBy) == k && KeyOf(y, sortBy) == k
    ensures !Before(y, x, sortBy, dir)
  {
    KeyLessIrreflexive(k);
  }

  /** Inserting `x` puts it in front of every record with the same key. */
  lemma {:induction false} InsertWithKey(x: Record, s: seq<Record>, sortBy: SortBy, dir: Direction, k: Key)
    ensures WithKey(Insert(x, s, sortBy, dir), sortBy, k)
         == (if KeyOf(x, sortBy) == k then [x] else []) + WithKey(s, sortBy, k)
  {
    var hx: seq<Record> := if KeyOf(x, sortBy) == k then [x] else [];
    if s == [] {
      WithKeyCons(x, [], sortBy, k);
      assert [x] + [] == [x];
    } else if Before(s[0], x, sortBy, dir) {
      var head, tail := s[0], s[1..];
      assert s == [head] + tail;
      var hs: seq<Record> := if KeyOf(head, sortBy) == k then [head] else [];
      var rest := Insert(x, tail, sortBy, dir);
      assert Insert(x, s, sortBy, dir) == [head] + rest;
      InsertWithKey(x, tail, sortBy, dir, k);
      WithKeyCons(head, rest, sortBy, k);
      WithKeyCons(head, tail, sortBy, k);
      if hx != [] && hs != [] {
        UnorderedSameKey(x, head, sortBy, dir, k);
      }
      SwapPastEmpty(hs, hx, WithKey(tail, sortBy, k));
    } else {
      assert Insert(x, s, sortBy, dir) == [x] + s;
      WithKeyCons(x, s, sortBy, k);
    }
  }

  lemma {:induction false} SortSorted(s: seq<Record>, sortBy: SortBy, dir: Direction)
    ensures Sorted(Sort(s, sortBy, dir), sortBy, dir)
  {
    if s != [] {
      SortSorted(s[1..], sortBy, dir);
      InsertSorted(s[0], Sort(s[1..], sortBy, dir), sortBy, dir);
    }
  }

  lemma {:induction false} SortStable(s: seq<Record>, sortBy: SortBy, dir: Direction, k: Key)
    ensures WithKey(Sort(s, sortBy, dir), sortBy, k) == WithKey(s, sortBy, k)
  {
    if s != [] {
      SortStable(s[1..], sortBy, dir, k);
      InsertWithKey(s[0], Sort(s[1..], sortBy, dir), sortBy, dir, k);
    }
  }

  /** `sortRecords(records, field, direction)`: a new sorted array. The
      input, a value, is left as it was. */
  function SortRecords(records: seq<Record>, sortBy: SortBy, direction: string): (r: seq<Record>)
    ensures multiset(r) == multiset(records)
    ensures Sorted(r, sortBy, DirectionOf(direction))
    ensures forall k :: WithKey(r, sortBy, k) == WithKey(records, sortBy, k)
  {
    var dir := DirectionOf(direction);
    SortSorted(records, sortBy, dir);
    forall k ensures WithKey(Sort(records, sortBy, dir), sortBy, k) == WithKey(records, sortBy, k) {
      SortStable(records, sortBy, dir, k);
    }
    Sort(records, sortBy, dir)
  }

  /** With `pages`, the result is non-decreasing (ascending) or
      non-increasing (descending) in the page count, a missing one as 0. */
  lemma SortByPagesOrdered(records: seq<Record>, direction: string)
    ensures var r := SortRecords(records, ByPages, direction);
      forall i, j :: 0 <= i < j < |r| ==>
        if direction == "asc" then r[i].pages.GetOr(0) <= r[j].pages.GetOr(0)
        else r[i].pages.GetOr(0) >= r[j].pages.GetOr(0)
  {
  }

  /** The field the string branch reads: `title`, `author` or `tag`. */
  function FieldText(r: Record, sortBy: SortBy): string {
    match sortBy
    case ByTitle => r.title
    case ByAuthor => r.author
    case ByTag => r.tag
    case _ => ""
  }

  /** With a string field, the lower-cased values are in string order. */
  lemma SortByTextOrdered(records: seq<Record>, sortBy: SortBy, direction: string)
    requires sortBy == ByTitle || sortBy == ByAuthor || sortBy == ByTag
    ensures var r := SortRecords(records, sortBy, direction);
      forall i, j :: 0 <= i < j < |r| ==>
        if direction == "asc" then !LexLess(Lower(FieldText(r[j], sortBy)), Lower(FieldText(r[i], sortBy)))
        else !LexLess(Lower(FieldText(r[i], sortBy)), Lower(FieldText(r[j], sortBy)))
  {
  }
}
