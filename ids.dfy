/** Record identifiers: `rec_` followed by a counter zero-padded to four
    digits, and the counter the store derives from the ids it already holds
    (`Math.max` of the numeric suffixes, plus one). */
module RecordIds {
  import opened Wrappers
  import opened Text

  const Prefix: string := "rec_"

  /** `"rec_" + String(n).padStart(4, '0')`. */
  function FormatId(n: nat): (id: string)
    ensures Prefix <= id && |id| >= |Prefix| + 4
  {
    Prefix + PadStart(NatToString(n), 4, '0')
  }

  /** A generated id is `rec_` and at least four digits, exactly four while
      the counter is below 10000. */
  lemma FormatIdShape(n: nat)
    ensures var id := FormatId(n);
      && |id| >= 8 && id[..4] == Prefix && AllDigits(id[4..])
      && (n < 10000 ==> |id| == 8)
  {
    var digits := PadStart(NatToString(n), 4, '0');
    assert FormatId(n)[4..] == digits;
    if n < 10000 {
      assert Pow10(4) == 10000;
      NatToStringLength(n, 4);
    }
  }

  /** The text after the first `_`, or `None` when there is none. */
  function AfterUnderscore(s: string): (r: Option<string>)
    ensures r.Some? ==> |r.value| < |s|
  {
    if s == [] then None
    else if s[0] == '_' then Some(s[1..])
    else AfterUnderscore(s[1..])
  }

  /** The text up to the first `_`, or all of `s`. */
  function UpToUnderscore(s: string): (r: string)
    ensures r <= s && forall i :: 0 <= i < |r| ==> r[i] != '_'
  {
    if s == [] || s[0] == '_' then [] else [s[0]] + UpToUnderscore(s[1..])
  }

  /** `id.split('_')[1]`: the second `_`-separated piece, `None` for `undefined`. */
  function IdSuffix(id: string): Option<string> {
    match AfterUnderscore(id)
    case None => None
    case Some(rest) => Some(UpToUnderscore(rest))
  }

  /** `parseInt(id.split('_')[1])`; `None` is `NaN` (also `parseInt(undefined)`). */
  function SuffixValue(id: string): Option<int> {
    match IdSuffix(id)
    case None => None
    case Some(piece) => ParseInt(piece)
  }

  lemma {:induction false} AfterUnderscoreNone(s: string)
    requires '_' !in s
    ensures AfterUnderscore(s).None?
  {
    if s != [] {
      assert s == [s[0]] + s[1..];
      AfterUnderscoreNone(s[1..]);
    }
  }

  /** An id without `_` has no second piece, so its suffix reads as `NaN`. */
  lemma NoUnderscoreIsNaN(id: string)
    requires '_' !in id
    ensures SuffixValue(id).None?
  {
    AfterUnderscoreNone(id);
  }

  lemma {:induction false} AfterUnderscoreOfJoin(head: string, tail: string)
    requires forall i :: 0 <= i < |head| ==> head[i] != '_'
    ensures AfterUnderscore(head + "_" + tail) == Some(tail)
  {
    if head == [] {
      assert head + "_" + tail == "_" + tail;
    } else {
      AfterUnderscoreOfJoin(head[1..], tail);
      assert (head + "_" + tail)[1..] == head[1..] + "_" + tail;
    }
  }

  /** The suffix of any `rec_`-prefixed id is read from what follows `rec_`. */
  lemma SuffixValueOfPrefixed(rest: string)
    ensures SuffixValue(Prefix + rest) == ParseInt(UpToUnderscore(rest))
  {
    AfterUnderscoreOfJoin("rec", rest);
    assert Prefix + rest == "rec" + "_" + rest;
  }

  lemma {:induction false} UpToUnderscoreOfPlain(s: string)
    requires forall i :: 0 <= i < |s| ==> s[i] != '_'
    ensures UpToUnderscore(s) == s
  {
    if s != [] {
      UpToUnderscoreOfPlain(s[1..]);
    }
  }

  /** Pad/parse round trip: the suffix of a generated id reads back as the
      counter it was made from, also past 9999 where the id simply widens. */
  lemma SuffixOfFormatId(n: nat)
    ensures SuffixValue(FormatId(n)) == Some(n)
  {
    var digits := PadStart(NatToString(n), 4, '0');
    SuffixValueOfPrefixed(digits);
    assert AllDigits(digits) by { FormatIdShape(n); assert digits == FormatId(n)[4..]; }
    UpToUnderscoreOfPlain(digits);
    ParseIntOfPadded(n, 4);
  }

  /** Distinct counters give distinct ids. */
  lemma FormatIdInjective(m: nat, n: nat)
    requires m != n
    ensures FormatId(m) != FormatId(n)
  {
    SuffixOfFormatId(m);
    SuffixOfFormatId(n);
  }

  // ---------------------------------------------------------------------------
  // The counter derived from existing ids
  // ---------------------------------------------------------------------------

  function SuffixValues(ids: seq<string>): (vs: seq<Option<int>>)
    ensures |vs| == |ids| && forall i :: 0 <= i < |ids| ==> vs[i] == SuffixValue(ids[i])
  {
    seq(|ids|, i requires 0 <= i < |ids| => SuffixValue(ids[i]))
  }

  /** One more than the largest of the numeric `values`, ignoring `NaN`s and
      never below 1; 1 when there is none. */
  function CounterAbove(values: seq<Option<int>>): (n: nat)
    ensures n >= 1
    ensures forall i :: 0 <= i < |values| && values[i].Some? ==> values[i].value < n
  {
    if values == [] then 1
    else
      var previous := CounterAbove(values[..|values| - 1]);
      match values[|values| - 1]
      case Some(v) => if v + 1 > previous then v + 1 else previous
      case None => previous
  }

  /** The counter is no larger than it must be: it is 1, or it follows one
      of the values. */
  lemma {:induction false} CounterAboveIsTight(values: seq<Option<int>>)
    ensures CounterAbove(values) == 1 || Some(CounterAbove(values) - 1) in values
  {
    if values != [] {
      var init := values[..|values| - 1];
      CounterAboveIsTight(init);
      if CounterAbove(values) != 1 && CounterAbove(values) == CounterAbove(init) {
        assert Some(CounterAbove(init) - 1) in init;
      }
    }
  }

  /** The counter the store keeps for a collection holding `ids`. */
  function NextId(ids: seq<string>): (n: nat)
    ensures n >= 1
  {
    CounterAbove(SuffixValues(ids))
  }

  /** The counter is above the number after the `_` of every id that has one. */
  lemma NextIdIsAbove(ids: seq<string>)
    ensures forall i :: 0 <= i < |ids| && SuffixValue(ids[i]).Some? ==> SuffixValue(ids[i]).value < NextId(ids)
  {
    var values := SuffixValues(ids);
    assert forall i :: 0 <= i < |ids| ==> values[i] == SuffixValue(ids[i]);
  }

  /** The counter is no larger than it must be: it is 1, or one more than
      the suffix of an existing id. */
  lemma NextIdIsTight(ids: seq<string>)
    ensures NextId(ids) == 1 || exists i :: 0 <= i < |ids| && SuffixValue(ids[i]) == Some(NextId(ids) - 1)
  {
    var values := SuffixValues(ids);
    CounterAboveIsTight(values);
    if NextId(ids) != 1 {
      var i :| 0 <= i < |values| && values[i] == Some(NextId(ids) - 1);
      assert SuffixValue(ids[i]) == Some(NextId(ids) - 1);
    }
  }

  /** The counter is the least value above every numbered suffix: any
      bound of 1 or more that is above them all is at least the counter. */
  lemma NextIdIsLeast(ids: seq<string>, n: int)
    requires n >= 1
    requires forall i :: 0 <= i < |ids| && SuffixValue(ids[i]).Some? ==> SuffixValue(ids[i]).value < n
    ensures NextId(ids) <= n
  {
    NextIdIsTight(ids);
  }

  /** No id generated from the counter or a later number is an existing id. */
  lemma NextIdIsFresh(ids: seq<string>, n: nat)
    requires n >= NextId(ids)
    ensures FormatId(n) !in ids
  {
    SuffixOfFormatId(n);
    NextIdIsAbove(ids);
    forall i | 0 <= i < |ids|
      ensures ids[i] != FormatId(n)
    {
      if SuffixValue(ids[i]).Some? {
        assert SuffixValue(ids[i]).value < n;
      }
    }
  }

  // ---------------------------------------------------------------------------
  // The counter as the source computes it, with JavaScript numbers
  // ---------------------------------------------------------------------------

  /** A JavaScript number restricted to what the counter can hold. */
  datatype JsNumber = Num(n: int) | NaN

  /** `Math.max(...values)` for a non-empty list: `NaN` as soon as one is. */
  function JsMax(values: seq<Option<int>>): (m: JsNumber)
    requires values != []
    ensures m.NaN? <==> exists i :: 0 <= i < |values| && values[i].None?
    ensures m.Num? ==> forall i :: 0 <= i < |values| ==> values[i].value <= m.n
    ensures m.Num? ==> exists i :: 0 <= i < |values| && values[i] == Some(m.n)
  {
    var last := values[|values| - 1];
    if |values| == 1 then (if last.None? then NaN else Num(last.value))
    else
      var m := JsMax(values[..|values| - 1]);
      if m.NaN? || last.None? then NaN
      else if last.value > m.n then Num(last.value) else m
  }

  /** `records.length > 0 ? Math.max(...suffixes) + 1 : 1`, as written. */
  function NextIdAsWritten(ids: seq<string>): (c: JsNumber)
    ensures c.NaN? <==> exists i :: 0 <= i < |ids| && SuffixValue(ids[i]).None?
    ensures c.Num? ==> forall i :: 0 <= i < |ids| ==> SuffixValue(ids[i]).value < c.n
    ensures c.Num? ==> (ids == [] && c.n == 1) || exists i :: 0 <= i < |ids| && SuffixValue(ids[i]) == Some(c.n - 1)
  {
    if ids == [] then Num(1)
    else
      match JsMax(SuffixValues(ids))
      case NaN => NaN
      case Num(m) => Num(m + 1)
  }

  /** `nextId++` on a JavaScript number. */
  function Increment(c: JsNumber): (d: JsNumber)
    ensures d.NaN? <==> c.NaN?
    ensures d.Num? ==> d.n - 1 == c.n
  {
    match c
    case NaN => NaN
    case Num(n) => Num(n + 1)
  }

  /** `String(c)` for the counter. */
  function JsNumberToString(c: JsNumber): string {
    match c
    case NaN => "NaN"
    case Num(n) => IntToString(n)
  }

  /** The id `addRecord` builds from the counter as written. */
  function FormatIdAsWritten(c: JsNumber): (id: string)
    ensures c.Num? && c.n >= 0 ==> id == FormatId(c.n)
    ensures c.NaN? ==> id == "rec_0NaN"
  {
    Prefix + PadStart(JsNumberToString(c), 4, '0')
  }

  /** Where every value is a non-negative number, `Math.max(...values) + 1`
      and the counter agree. */
  lemma CounterAboveAgrees(values: seq<Option<int>>)
    requires values != []
    requires forall i :: 0 <= i < |values| ==> values[i].Some? && values[i].value >= 0
    ensures JsMax(values) == Num(CounterAbove(values) - 1)
  {
    var m := JsMax(values);
    var p := CounterAbove(values) - 1;
    assert m.Num?;
    var i :| 0 <= i < |values| && values[i] == Some(m.n);
    assert m.n <= p;
    assert p <= m.n by {
      CounterAboveIsTight(values);
      if p == 0 {
        assert values[0].value >= 0;
      } else {
        assert Some(p) in values;
      }
    }
  }

  /** Where every suffix is a non-negative number the two counters agree. */
  lemma NextIdAsWrittenAgrees(ids: seq<string>)
    requires forall i :: 0 <= i < |ids| ==> SuffixValue(ids[i]).Some? && SuffixValue(ids[i]).value >= 0
    ensures NextIdAsWritten(ids) == Num(NextId(ids))
  {
    if ids != [] {
      var values := SuffixValues(ids);
      forall i | 0 <= i < |values|
        ensures values[i].Some? && values[i].value >= 0
      {
        assert values[i] == SuffixValue(ids[i]);
      }
      CounterAboveAgrees(values);
      assert NextIdAsWritten(ids) == Num(JsMax(values).n + 1);
      assert NextId(ids) == CounterAbove(values);
    }
  }

  /** As written, one id whose suffix is not a number makes the counter
      `NaN`, and every later add then issues the same id `rec_0NaN`. */
  lemma NaNCounterRepeatsIds(ids: seq<string>, k: int)
    requires 0 <= k < |ids| && SuffixValue(ids[k]).None?
    ensures NextIdAsWritten(ids) == NaN
    ensures FormatIdAsWritten(NextIdAsWritten(ids)) == FormatIdAsWritten(Increment(NextIdAsWritten(ids))) == "rec_0NaN"
  {
    assert SuffixValues(ids)[k].None?;
  }

  /** A concrete case: an imported id without an underscore. */
  lemma NaNCounterExample()
    ensures NextIdAsWritten(["book-1"]) == NaN
    ensures NextId(["book-1"]) == 1
  {
    NoUnderscoreIsNaN("book-1");
    NaNCounterRepeatsIds(["book-1"], 0);
  }

  /** As written, a negative largest suffix gives a counter whose id is not
      in `rec_NNNN` form and whose suffix does not read back as the counter. */
  lemma NegativeCounterExample()
    ensures NextIdAsWritten(["rec_-7"]) == Num(-6)
    ensures FormatIdAsWritten(Num(-6)) == "rec_00-6"
    ensures SuffixValue("rec_00-6") == Some(0)
    ensures NextId(["rec_-7"]) == 1
  {
    NegativeCounterValues();
    MinusSixId();
    PaddedMinusSixSuffix();
  }

  lemma NegativeCounterValues()
    ensures NextIdAsWritten(["rec_-7"]) == Num(-6)
    ensures NextId(["rec_-7"]) == 1
  {
    MinusSevenSuffix();
    var values := SuffixValues(["rec_-7"]);
    assert values == [Some(-7)];
    assert JsMax(values) == Num(-7);
    assert CounterAbove(values[..0]) == 1;
  }

  lemma MinusSixId()
    ensures FormatIdAsWritten(Num(-6)) == "rec_00-6"
  {
    assert NatToString(6) == "6";
    assert IntToString(-6) == "-6";
    assert Repeat('0', 2) == "00";
  }

  lemma MinusSevenSuffix()
    ensures SuffixValue("rec_-7") == Some(-7)
  {
    SuffixValueOfPrefixed("-7");
    assert "rec_-7" == Prefix + "-7";
    UpToUnderscoreOfPlain("-7");
    ParseMinusSeven();
  }

  lemma ParseMinusSeven()
    ensures ParseInt("-7") == Some(-7)
  {
    ParseIntOfNegated("7");
    assert ['-'] + "7" == "-7";
    assert DigitsValue("7") == 7 by { assert "7"[..0] == []; }
  }

  lemma PaddedMinusSixSuffix()
    ensures SuffixValue("rec_00-6") == Some(0)
  {
    var rest := "00-6";
    SuffixValueOfPrefixed(rest);
    assert SuffixValue(Prefix + rest) == ParseInt(UpToUnderscore(rest));
    UpToUnderscoreOfPlain(rest);
    assert UpToUnderscore(rest) == rest;
    ParsePaddedMinusSix();
    assert ParseInt(rest) == Some(0);
    assert SuffixValue(Prefix + rest) == Some(0);
  }

  lemma ParsePaddedMinusSix()
    ensures ParseInt("00-6") == Some(0)
  {
    ParseIntOfDigitsThen("00", "-6");
    assert "00" + "-6" == "00-6";
    assert DigitsValue("00") == 0 by { assert "00"[..1] == "0"; }
  }
}
