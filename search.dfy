/** The search box: `escapeRegex`, the filter of `searchRecords` and the
    marking of `highlightMatches`, in basic mode, where the query is escaped
    and so stands for itself. */
module Search {
  import opened Wrappers
  import opened Text
  import opened Records

  // ---------------------------------------------------------------------------
  // escapeRegex
  // ---------------------------------------------------------------------------

  /** The class `[.*+?^${}()|[\]\\]`. */
  predicate IsRegexSpecial(c: char) {
    c in ".*+?^${}()|[]\\"
  }

  function CountSpecial(s: string): nat {
    if s == [] then 0 else (if IsRegexSpecial(s[0]) then 1 else 0) + CountSpecial(s[1..])
  }

  /** `str.replace(/[.*+?^${}()|[\]\\]/g, '\\$&')`: a backslash in front of
      each special character. */
  function EscapeRegex(s: string): (r: string)
    ensures |r| == |s| + CountSpecial(s)
  {
    if s == [] then []
    else (if IsRegexSpecial(s[0]) then ['\\', s[0]] else [s[0]]) + EscapeRegex(s[1..])
  }

  /** A pattern made only of ordinary characters and escaped special ones:
      no operator is left active, so it matches exactly one text. */
  predicate LiteralPattern(r: string) {
    if r == [] then true
    else if r[0] == '\\' then |r| >= 2 && IsRegexSpecial(r[1]) && LiteralPattern(r[2..])
    else !IsRegexSpecial(r[0]) && LiteralPattern(r[1..])
  }

  /** The text a literal pattern matches: each escape stands for the
      character after it. */
  function Unescape(r: string): string {
    if r == [] then []
    else if r[0] == '\\' && |r| >= 2 then [r[1]] + Unescape(r[2..])
    else [r[0]] + Unescape(r[1..])
  }

  /** The escaped query is a literal pattern whose text is the query. */
  lemma {:induction false} EscapeRegexIsLiteral(s: string)
    ensures LiteralPattern(EscapeRegex(s))
    ensures Unescape(EscapeRegex(s)) == s
  {
    if s != [] {
      EscapeRegexIsLiteral(s[1..]);
      var rest := EscapeRegex(s[1..]);
      if IsRegexSpecial(s[0]) {
        var r := ['\\', s[0]] + rest;
        assert r[0] == '\\' && r[1] == s[0] && r[2..] == rest;
      } else {
        var r := [s[0]] + rest;
        assert r[0] == s[0] && r[1..] == rest;
      }
      assert s == [s[0]] + s[1..];
    }
  }

  /** A query without special characters is used as it is. */
  lemma {:induction false} EscapeRegexPlain(s: string)
    requires forall i :: 0 <= i < |s| ==> !IsRegexSpecial(s[i])
    ensures EscapeRegex(s) == s
  {
    if s != [] {
      EscapeRegexPlain(s[1..]);
      assert s == [s[0]] + s[1..];
    }
  }

  // ---------------------------------------------------------------------------
  // Matching a literal pattern
  // ---------------------------------------------------------------------------

  /** The text the pattern is compared with: as it is when `caseSensitive`,
      otherwise with the letters folded as the `i` flag does. */
  function Fold(s: string, caseSensitive: bool): (f: string)
    ensures |f| == |s|
  {
    if caseSensitive then s else Lower(s)
  }

  predicate OccursAt(q: string, t: string, p: int) {
    0 <= p && p + |q| <= |t| && t[p..p + |q|] == q
  }

  predicate Contains(t: string, q: string) {
    exists p :: 0 <= p <= |t| && OccursAt(q, t, p)
  }

  /** The first occurrence of `q` in `t` at or after `from`. */
  function FindFrom(q: string, t: string, from: nat): (r: Option<nat>)
    ensures r.Some? ==> from <= r.value && OccursAt(q, t, r.value)
    ensures forall p :: from <= p && (r.None? || p < r.value) ==> !OccursAt(q, t, p)
    decreases |t| - from
  {
    if from + |q| > |t| then None
    else if t[from..from + |q|] == q then Some(from)
    else FindFrom(q, t, from + 1)
  }

  /** The outcome of `regex.test` on a global regular expression: whether it
      matched, and the `lastIndex` it leaves behind. */
  datatype TestResult = TestResult(hit: bool, lastIndex: nat)

  /** `regex.test(t)` with the `g` flag: the search starts at `lastIndex`; a
      match moves `lastIndex` past it, a failure resets it to 0. */
  function Test(q: string, t: string, lastIndex: nat): (r: TestResult)
    ensures r.hit <==> exists p :: lastIndex <= p && OccursAt(q, t, p)
    ensures r.hit ==> r.lastIndex <= |t|
    ensures r.hit ==> exists p :: && lastIndex <= p && OccursAt(q, t, p) && r.lastIndex == p + |q|
                                  && forall p' :: lastIndex <= p' < p ==> !OccursAt(q, t, p')
    ensures !r.hit ==> r.lastIndex == 0
  {
    match FindFrom(q, t, lastIndex)
    case None => TestResult(false, 0)
    case Some(p) => TestResult(true, p + |q|)
  }

  /** From the start of the text, `test` finds exactly the texts that contain
      the pattern. */
  lemma TestFromStart(q: string, t: string)
    ensures Test(q, t, 0).hit <==> Contains(t, q)
  {
  }

  /** The query, folded, occurs in the title, the author or the tag. */
  predicate Matches(r: Record, q: string, caseSensitive: bool) {
    || Contains(Fold(r.title, caseSensitive), q)
    || Contains(Fold(r.author, caseSensitive), q)
    || Contains(Fold(r.tag, caseSensitive), q)
  }

  // ---------------------------------------------------------------------------
  // searchRecords
  // ---------------------------------------------------------------------------

  /** The records that match, in their order. */
  function Filter(rs: seq<Record>, q: string, caseSensitive: bool): (found: seq<Record>)
    ensures forall r :: multiset(found)[r] == if Matches(r, q, caseSensitive) then multiset(rs)[r] else 0
  {
    if rs == [] then []
    else
      assert rs == [rs[0]] + rs[1..];
      (if Matches(rs[0], q, caseSensitive) then [rs[0]] else []) + Filter(rs[1..], q, caseSensitive)
  }

  /** `searchRecords` as intended: the input itself for an empty query,
      otherwise every record whose title, author or tag contains the query. */
  function SearchRecords(records: seq<Record>, query: string, caseSensitive: bool): (found: seq<Record>)
    ensures query == [] ==> found == records
    ensures query != [] ==> forall r ::
      multiset(found)[r] == if Matches(r, Fold(query, caseSensitive), caseSensitive) then multiset(records)[r] else 0
  {
    if query == [] then records else Filter(records, Fold(query, caseSensitive), caseSensitive)
  }

  /** One record through `test(title) || test(author) || test(tag)`, with the
      one `lastIndex` the three calls share. */
  function TestRecord(r: Record, q: string, caseSensitive: bool, lastIndex: nat): (res: TestResult)
    ensures res.hit ==> Matches(r, q, caseSensitive)
  {
    var title := Test(q, Fold(r.title, caseSensitive), lastIndex);
    if title.hit then title
    else
      var author := Test(q, Fold(r.author, caseSensitive), title.lastIndex);
      if author.hit then author
      else Test(q, Fold(r.tag, caseSensitive), author.lastIndex)
  }

  /** The `filter` as written: the `lastIndex` left by one record is where
      the next record's title is searched from. */
  function FilterAsWritten(rs: seq<Record>, q: string, caseSensitive: bool, lastIndex: nat): (found: seq<Record>)
    ensures forall r :: multiset(found)[r] <= multiset(rs)[r]
    ensures forall r :: r in found ==> Matches(r, q, caseSensitive)
  {
    if rs == [] then []
    else
      assert rs == [rs[0]] + rs[1..];
      var t := TestRecord(rs[0], q, caseSensitive, lastIndex);
      (if t.hit then [rs[0]] else []) + FilterAsWritten(rs[1..], q, caseSensitive, t.lastIndex)
  }

  /** `searchRecords` as written, one regular expression with the `g` flag
      shared by every `test`. */
  function SearchRecordsAsWritten(records: seq<Record>, query: string, caseSensitive: bool): (found: seq<Record>)
    ensures query == [] ==> found == records
    ensures forall r :: multiset(found)[r] <= multiset(records)[r]
  {
    if query == [] then records else FilterAsWritten(records, Fold(query, caseSensitive), caseSensitive, 0)
  }

  /** What the written search returns is always among what it should. */
  lemma AsWrittenFindsNoMore(records: seq<Record>, query: string, caseSensitive: bool)
    ensures forall r :: r in SearchRecordsAsWritten(records, query, caseSensitive) ==>
      r in SearchRecords(records, query, caseSensitive)
  {
    var found := SearchRecordsAsWritten(records, query, caseSensitive);
    forall r | r in found
      ensures r in SearchRecords(records, query, caseSensitive)
    {
      assert multiset(found)[r] > 0;
    }
  }

  /** A book whose only searchable text is the title "Dune": found from
      the start, missed from index 4. */
  lemma DuneTests(r: Record)
    requires r.title == "Dune" && r.author == "" && r.tag == ""
    ensures TestRecord(r, "Dune", true, 0) == TestResult(true, 4)
    ensures TestRecord(r, "Dune", true, 4) == TestResult(false, 0)
    ensures Matches(r, "Dune", true)
  {
    assert FindFrom("Dune", "Dune", 0) == Some(0);
    assert FindFrom("Dune", "Dune", 4) == None;
    assert OccursAt("Dune", "Dune", 0);
  }

  /** Two books titled "Dune": the first match leaves `lastIndex` at 4, so
      the second title is searched from its end and the book is dropped. */
  lemma SecondMatchMissed(a: Record, b: Record)
    requires a.title == b.title == "Dune" && a.author == b.author == "" && a.tag == b.tag == ""
    ensures SearchRecordsAsWritten([a, b], "Dune", true) == [a]
    ensures SearchRecords([a, b], "Dune", true) == [a, b]
  {
    DuneTests(a);
    DuneTests(b);
    assert [a, b][1..] == [b];
    assert FilterAsWritten([b], "Dune", true, 4) == [];
    assert Filter([b], "Dune", true) == [b];
  }

  // ---------------------------------------------------------------------------
  // highlightMatches
  // ---------------------------------------------------------------------------

  /** `text.replace(regex, m => `<mark>${m}</mark>`)` from `from` on: each
      match, found in the folded text, is wrapped in the original case. The
      rest of the text comes back as it is when nothing matches, and each
      match adds at least the thirteen characters of the two tags. */
  function HighlightFrom(text: string, folded: string, q: string, from: nat): (r: string)
    requires |folded| == |text| && q != [] && from <= |text|
    ensures (forall p :: from <= p ==> !OccursAt(q, folded, p)) ==> r == text[from..]
    ensures (exists p :: from <= p && OccursAt(q, folded, p)) ==> |r| >= |text| - from + 13
    ensures |r| >= |text| - from
    decreases |text| - from
  {
    match FindFrom(q, folded, from)
    case None => text[from..]
    case Some(p) =>
      text[from..p] + "<mark>" + text[p..p + |q|] + "</mark>" + HighlightFrom(text, folded, q, p + |q|)
  }

  /** `highlightMatches(text, query, {caseSensitive})`: the text itself when
      the query or the text is empty, otherwise every match marked, so that
      the text changes exactly when the query occurs in it. */
  function HighlightMatches(text: string, query: string, caseSensitive: bool): (r: string)
    ensures query == [] || text == [] ==> r == text
    ensures !Contains(Fold(text, caseSensitive), Fold(query, caseSensitive)) ==> r == text
    ensures query != [] && Contains(Fold(text, caseSensitive), Fold(query, caseSensitive)) ==> |r| >= |text| + 13
  {
    if query == [] || text == [] then text
    else
      var folded := Fold(text, caseSensitive);
      var q := Fold(query, caseSensitive);
      assert !Contains(folded, q) ==> FindFrom(q, folded, 0).None?;
      HighlightFrom(text, folded, q, 0)
  }
}
