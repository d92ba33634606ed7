/** The form-field validators: each regular expression of `patterns` as a
    predicate on characters, the error list of one field and the error map of
    a whole form. */
module Validators {
  import opened Wrappers
  import opened Text

  const LeadingTrailing := "Cannot have leading or trailing spaces"
  const ContainsNumbers := "Cannot contain numbers"
  const DuplicateWords := "Contains duplicate words"
  const NotNonNegative := "Must be a non-negative integer"
  const NotDate := "Must be in YYYY-MM-DD format"
  const NotTag := "Must contain only letters, spaces, ampersand, or hyphens"

  /** The fields `validateRecord` checks, in its order. */
  const Fields: seq<string> := ["title", "author", "pages", "dateAdded", "tag"]

  /** What `RegExp.prototype.test` reads: a form value as a string, where a
      missing one (`undefined`) becomes the text "undefined". */
  function AsText(value: Option<string>): string {
    if value.None? then "undefined" else value.value
  }

  /** `!value`: missing or empty. */
  predicate Falsy(value: Option<string>) {
    value.None? || value.value == ""
  }

  // ---------------------------------------------------------------------------
  // patterns.title and patterns.author: /^\S(?:.*\S)?$/
  // ---------------------------------------------------------------------------

  /** A non-space character, then optionally any line of characters ending in a
      non-space one. */
  predicate TrimmedPattern(s: string): (b: bool)
    ensures b ==> s != [] && !IsSpace(s[0]) && !IsSpace(s[|s| - 1])
  {
    && s != []
    && !IsSpace(s[0])
    && (|s| == 1 || (!IsSpace(s[|s| - 1]) && forall i :: 1 <= i < |s| - 1 ==> !IsLineTerminator(s[i])))
  }

  /** The text is non-empty, neither starts nor ends with white space, and
      holds no line break anywhere. */
  lemma TrimmedPatternMeaning(s: string)
    ensures TrimmedPattern(s) <==>
      && s != [] && !IsSpace(s[0]) && !IsSpace(s[|s| - 1])
      && forall i :: 0 <= i < |s| ==> !IsLineTerminator(s[i])
  {
    if TrimmedPattern(s) {
      forall i | 0 <= i < |s|
        ensures !IsLineTerminator(s[i])
      {
        if i == 0 || i == |s| - 1 {
          assert !IsSpace(s[i]);
        }
      }
    }
  }

  // ---------------------------------------------------------------------------
  // patterns.noNumbers: /^[^0-9]*$/
  // ---------------------------------------------------------------------------

  /** No character of the class `[0-9]`. */
  predicate NoDigits(s: string): (b: bool)
    ensures b <==> forall i :: 0 <= i < |s| ==> s[i] !in "0123456789"
  {
    forall i :: 0 <= i < |s| ==> !IsDigit(s[i])
  }

  // ---------------------------------------------------------------------------
  // patterns.duplicateWord: /\b(\w+)\s+\1\b/i
  // ---------------------------------------------------------------------------

  predicate AllWordChars(s: string) { forall i :: 0 <= i < |s| ==> IsWordChar(s[i]) }

  predicate AllSpaces(s: string) { forall i :: 0 <= i < |s| ==> IsSpace(s[i]) }

  /** A match of the pattern on `s[i..l]`: a word boundary at `i`, the word
      `s[i..j]`, white space `s[j..k]`, the same word again `s[k..l]` up to
      the case of its letters, and a word boundary at `l`. */
  predicate DuplicateAt(s: string, i: int, j: int, k: int, l: int) {
    && 0 <= i < j < k < l <= |s|
    && (i == 0 || !IsWordChar(s[i - 1]))
    && AllWordChars(s[i..j])
    && AllSpaces(s[j..k])
    && l - k == j - i
    && Lower(s[k..l]) == Lower(s[i..j])
    && (l == |s| || !IsWordChar(s[l]))
  }

  /** `duplicateWord.test(s)`: the pattern matches somewhere in `s`. */
  predicate HasDuplicateWord(s: string): (b: bool)
    ensures b ==> |s| >= 3
  {
    exists i, j, k, l :: 0 <= i < j < k < l <= |s| && DuplicateAt(s, i, j, k, l)
  }

  /** A text without white space has no repeated word. */
  lemma NoSpaceNoDuplicate(s: string)
    requires forall i :: 0 <= i < |s| ==> !IsSpace(s[i])
    ensures !HasDuplicateWord(s)
  {
    forall i, j, k, l | 0 <= i < j < k < l <= |s|
      ensures !DuplicateAt(s, i, j, k, l)
    {
      assert s[j..k][0] == s[j];
    }
  }

  /** The repetition is found whatever the case of its letters. */
  lemma DuplicateIgnoresCase()
    ensures HasDuplicateWord("The the end")
  {
    var s := "The the end";
    assert s[0..3] == "The" && s[3..4] == " " && s[4..7] == "the";
    assert Lower("The") == "the" == Lower("the");
    assert DuplicateAt(s, 0, 3, 4, 7);
  }

  // ---------------------------------------------------------------------------
  // patterns.pages: /^(0|[1-9]\d*)$/
  // ---------------------------------------------------------------------------

  predicate PagesPattern(s: string): (b: bool)
    ensures b ==> s != [] && AllDigits(s)
  {
    if s == [] then false
    else
      DigitsSplit(s);
      s == "0" || ('1' <= s[0] <= '9' && AllDigits(s[1..]))
  }

  /** The digits after the first one, and the first one. */
  lemma DigitsSplit(s: string)
    requires s != []
    ensures AllDigits(s) <==> IsDigit(s[0]) && AllDigits(s[1..])
  {
    if IsDigit(s[0]) && AllDigits(s[1..]) {
      forall i | 0 < i < |s|
        ensures IsDigit(s[i])
      {
        assert s[i] == s[1..][i - 1];
      }
    }
    if AllDigits(s) {
      forall i | 0 <= i < |s| - 1
        ensures IsDigit(s[1..][i])
      {
        assert s[1..][i] == s[i + 1];
      }
    }
  }

  lemma PagesPatternIsCanonical(s: string)
    requires PagesPattern(s)
    ensures AllDigits(s) && s == NatToString(DigitsValue(s))
  {
    DigitsSplit(s);
    CanonicalNumeral(s);
  }

  lemma CanonicalIsPagesPattern(s: string, n: nat)
    requires s == NatToString(n)
    ensures PagesPattern(s)
  {
    DigitsSplit(s);
    if s[0] == '0' {
      assert |s| == 1;
      assert s == "0";
    }
  }

  /** Exactly the numerals `String(n)` gives for a non-negative integer `n`. */
  lemma PagesPatternIsNumeral(s: string)
    ensures PagesPattern(s) <==> AllDigits(s) && s == NatToString(DigitsValue(s))
  {
    if PagesPattern(s) {
      PagesPatternIsCanonical(s);
    }
    if AllDigits(s) && s == NatToString(DigitsValue(s)) {
      CanonicalIsPagesPattern(s, DigitsValue(s));
    }
  }

  // ---------------------------------------------------------------------------
  // patterns.date: /^\d{4}-(0[1-9]|1[0-2])-(0[1-9]|[12]\d|3[01])$/
  // ---------------------------------------------------------------------------

  /** `0[1-9]|1[0-2]`. */
  predicate MonthPattern(a: char, b: char) {
    (a == '0' && '1' <= b <= '9') || (a == '1' && '0' <= b <= '2')
  }

  /** `0[1-9]|[12]\d|3[01]`. */
  predicate DayPattern(a: char, b: char) {
    || (a == '0' && '1' <= b <= '9')
    || ((a == '1' || a == '2') && IsDigit(b))
    || (a == '3' && (b == '0' || b == '1'))
  }

  predicate DatePattern(s: string): (b: bool)
    ensures b ==> |s| == 10 && AllDigits(s[5..7]) && AllDigits(s[8..])
  {
    && |s| == 10
    && AllDigits(s[..4])
    && s[4] == '-'
    && MonthPattern(s[5], s[6])
    && s[7] == '-'
    && DayPattern(s[8], s[9])
  }

  lemma TwoDigits(s: string)
    requires |s| == 2 && AllDigits(s)
    ensures DigitsValue(s) == DigitValue(s[0]) * 10 + DigitValue(s[1])
  {
    var first := s[..1];
    assert first[..0] == [] && first[0] == s[0] && s[..|s| - 1] == first;
    assert DigitsValue(first) == DigitValue(s[0]);
  }

  /** Four digits, then a month 01 to 12 and a day 01 to 31 as two digits
      each, joined by hyphens. The day is not checked against the month. */
  lemma DatePatternMeaning(s: string)
    ensures DatePattern(s) <==>
      && |s| == 10 && AllDigits(s[..4]) && s[4] == '-' && s[7] == '-'
      && AllDigits(s[5..7]) && AllDigits(s[8..])
      && 1 <= DigitsValue(s[5..7]) <= 12
      && 1 <= DigitsValue(s[8..]) <= 31
  {
    if |s| == 10 {
      var month, day := s[5..7], s[8..];
      assert month[0] == s[5] && month[1] == s[6];
      assert day[0] == s[8] && day[1] == s[9];
      if IsDigit(s[5]) && IsDigit(s[6]) {
        TwoDigits(month);
      }
      if IsDigit(s[8]) && IsDigit(s[9]) {
        TwoDigits(day);
      }
    }
  }

  /** `2025-02-31` passes. */
  lemma DateAcceptsImpossibleDay()
    ensures DatePattern("2025-02-31")
  {
    var s := "2025-02-31";
    assert s[..4] == "2025";
  }

  // ---------------------------------------------------------------------------
  // patterns.tag: /^[A-Za-z]+(?:[-& ]*[A-Za-z]+)*$/
  // ---------------------------------------------------------------------------

  predicate IsTagSeparator(c: char) { c == '-' || c == '&' || c == ' ' }

  /** The rest of a tag, read after a letter (`afterLetter`) or after a
      separator: letters continue a group, separators start a run that
      another letter group must end. */
  predicate TagRest(s: string, afterLetter: bool) {
    if s == [] then afterLetter
    else if IsLetter(s[0]) then TagRest(s[1..], true)
    else IsTagSeparator(s[0]) && TagRest(s[1..], false)
  }

  predicate TagPattern(s: string): (b: bool)
    ensures b ==> s != [] && IsLetter(s[0]) && IsLetter(s[|s| - 1])
  {
    if s == [] then false
    else
      TagRestMeaning(s[1..], true);
      assert |s| > 1 ==> s[1..][|s| - 2] == s[|s| - 1];
      IsLetter(s[0]) && TagRest(s[1..], true)
  }

  predicate TagChars(s: string) {
    forall i :: 0 <= i < |s| ==> IsLetter(s[i]) || IsTagSeparator(s[i])
  }

  lemma {:induction false} TagRestMeaning(s: string, afterLetter: bool)
    ensures TagRest(s, afterLetter) <==>
      TagChars(s) && (if s == [] then afterLetter else IsLetter(s[|s| - 1]))
  {
    if s != [] {
      TagRestMeaning(s[1..], IsLetter(s[0]));
      assert TagChars(s) <==> (IsLetter(s[0]) || IsTagSeparator(s[0])) && TagChars(s[1..]) by {
        if (IsLetter(s[0]) || IsTagSeparator(s[0])) && TagChars(s[1..]) {
          forall i | 0 < i < |s|
            ensures IsLetter(s[i]) || IsTagSeparator(s[i])
          {
            assert s[i] == s[1..][i - 1];
          }
        }
      }
      if |s| > 1 {
        assert s[1..][|s| - 2] == s[|s| - 1];
      }
    }
  }

  /** One or more letter groups joined by runs of `-`, `&` and space: the
      tag starts and ends with a letter and holds nothing else. */
  lemma TagPatternMeaning(s: string)
    ensures TagPattern(s) <==>
      s != [] && IsLetter(s[0]) && IsLetter(s[|s| - 1]) && TagChars(s)
  {
    if s != [] {
      TagRestMeaning(s[1..], true);
      if |s| > 1 {
        assert s[1..][|s| - 2] == s[|s| - 1];
      }
      if IsLetter(s[0]) && TagChars(s[1..]) {
        forall i | 0 < i < |s|
          ensures IsLetter(s[i]) || IsTagSeparator(s[i])
        {
          assert s[i] == s[1..][i - 1];
        }
      }
      if TagChars(s) {
        forall i | 0 <= i < |s| - 1
          ensures IsLetter(s[1..][i]) || IsTagSeparator(s[1..][i])
        {
          assert s[1..][i] == s[i + 1];
        }
      }
    }
  }

  // ---------------------------------------------------------------------------
  // validateField and validateRecord
  // ---------------------------------------------------------------------------

  /** `validateField(field, value)`: the messages of the rules the value
      breaks, in the order the rules are checked. */
  function ValidateField(field: string, value: Option<string>): (errors: seq<string>)
    ensures field !in Fields ==> errors == []
    ensures |errors| <= 3
  {
    var s := AsText(value);
    if field == "title" || field == "author" then
      (if Falsy(value) || !TrimmedPattern(s) then [LeadingTrailing] else [])
      + (if !NoDigits(s) then [ContainsNumbers] else [])
      + (if HasDuplicateWord(s) then [DuplicateWords] else [])
    else if field == "pages" then
      (if PagesPattern(s) then [] else [NotNonNegative])
    else if field == "dateAdded" then
      (if DatePattern(s) then [] else [NotDate])
    else if field == "tag" then
      (if TagPattern(s) then [] else [NotTag])
    else []
  }

  /** Where a title or author message sits in the checking order. */
  function TextRank(message: string): nat {
    if message == LeadingTrailing then 0 else if message == ContainsNumbers then 1 else 2
  }

  /** The three title and author messages, each present or not, in the
      order they are checked. */
  lemma TextMessagesInOrder(a: seq<string>, b: seq<string>, c: seq<string>)
    requires a == [] || a == [LeadingTrailing]
    requires b == [] || b == [ContainsNumbers]
    requires c == [] || c == [DuplicateWords]
    ensures LeadingTrailing in a + b + c <==> a != []
    ensures ContainsNumbers in a + b + c <==> b != []
    ensures DuplicateWords in a + b + c <==> c != []
    ensures forall e :: e in a + b + c ==> e == LeadingTrailing || e == ContainsNumbers || e == DuplicateWords
    ensures forall i, j :: 0 <= i < j < |a + b + c| ==> TextRank((a + b + c)[i]) < TextRank((a + b + c)[j])
  {
    assert TextRank(LeadingTrailing) == 0 && TextRank(ContainsNumbers) == 1 && TextRank(DuplicateWords) == 2;
  }

  /** A title or author gets the white-space message exactly when it is empty,
      starts or ends with white space or holds a line break; the numbers
      message exactly when it holds a digit; the duplicate message exactly
      when a word is repeated; and no other message, each at most once, in
      that order. */
  lemma TextFieldErrors(field: string, v: string)
    requires field == "title" || field == "author"
    ensures var errors := ValidateField(field, Some(v));
      && (LeadingTrailing in errors <==>
            v == [] || IsSpace(v[0]) || IsSpace(v[|v| - 1])
            || exists i :: 0 <= i < |v| && IsLineTerminator(v[i]))
      && (ContainsNumbers in errors <==> exists i :: 0 <= i < |v| && IsDigit(v[i]))
      && (DuplicateWords in errors <==> HasDuplicateWord(v))
      && (forall e :: e in errors ==> e == LeadingTrailing || e == ContainsNumbers || e == DuplicateWords)
      && (forall i, j :: 0 <= i < j < |errors| ==> TextRank(errors[i]) < TextRank(errors[j]))
  {
    TrimmedPatternMeaning(v);
    var a: seq<string> := if v == [] || !TrimmedPattern(v) then [LeadingTrailing] else [];
    var b: seq<string> := if !NoDigits(v) then [ContainsNumbers] else [];
    var c: seq<string> := if HasDuplicateWord(v) then [DuplicateWords] else [];
    var errors := ValidateField(field, Some(v));
    assert errors == a + b + c;
    TextMessagesInOrder(a, b, c);
  }

  /** A missing title or author counts as empty. */
  lemma MissingTextField(field: string)
    requires field == "title" || field == "author"
    ensures ValidateField(field, None) == [LeadingTrailing]
  {
    var s := "undefined";
    assert TrimmedPattern(s);
    NoSpaceNoDuplicate(s);
  }

  /** A page count passes exactly when it is the numeral of a non-negative
      integer; otherwise it gets the one page-count message. */
  lemma PagesFieldErrors(v: string)
    ensures ValidateField("pages", Some(v))
         == if AllDigits(v) && v == NatToString(DigitsValue(v)) then [] else [NotNonNegative]
  {
    PagesPatternIsNumeral(v);
  }

  /** Every non-negative integer written out passes. */
  lemma PagesAcceptsEveryCount(n: nat)
    ensures ValidateField("pages", Some(NatToString(n))) == []
  {
    NatToStringValue(n);
    PagesFieldErrors(NatToString(n));
  }

  /** A date passes exactly when it has the `YYYY-MM-DD` shape with a month
      from 1 to 12 and a day from 1 to 31. */
  lemma DateFieldErrors(v: string)
    ensures ValidateField("dateAdded", Some(v)) == [] <==>
      && |v| == 10 && AllDigits(v[..4]) && v[4] == '-' && v[7] == '-'
      && AllDigits(v[5..7]) && AllDigits(v[8..])
      && 1 <= DigitsValue(v[5..7]) <= 12
      && 1 <= DigitsValue(v[8..]) <= 31
    ensures ValidateField("dateAdded", Some(v)) in {[], [NotDate]}
  {
    DatePatternMeaning(v);
  }

  /** A tag passes exactly when it starts and ends with a letter and holds
      only letters, `-`, `&` and spaces. */
  lemma TagFieldErrors(v: string)
    ensures ValidateField("tag", Some(v)) == [] <==>
      v != [] && IsLetter(v[0]) && IsLetter(v[|v| - 1]) && TagChars(v)
    ensures ValidateField("tag", Some(v)) in {[], [NotTag]}
  {
    TagPatternMeaning(v);
  }

  /** `record[field]`: the form value, `undefined` when the key is missing. */
  function Get(form: map<string, string>, field: string): Option<string> {
    if field in form then Some(form[field]) else None
  }

  /** The `forEach` over `fields`: each field with a non-empty error list is
      recorded under its name. */
  function Gather(form: map<string, string>, fields: seq<string>): (errors: map<string, seq<string>>)
    ensures forall f :: f in errors <==> f in fields && ValidateField(f, Get(form, f)) != []
    ensures forall f :: f in errors ==> errors[f] == ValidateField(f, Get(form, f))
  {
    if fields == [] then map[]
    else
      var f := fields[|fields| - 1];
      var acc := Gather(form, fields[..|fields| - 1]);
      assert fields == fields[..|fields| - 1] + [f];
      var e := ValidateField(f, Get(form, f));
      if |e| > 0 then acc[f := e] else acc
  }

  /** `validateRecord(record)`: the error list of every field that has one,
      under the field's name; a valid form gives the empty map. */
  function ValidateRecord(form: map<string, string>): (errors: map<string, seq<string>>)
    ensures errors.Keys <= {"title", "author", "pages", "dateAdded", "tag"}
    ensures forall f :: f in Fields ==> (f in errors <==> ValidateField(f, Get(form, f)) != [])
    ensures forall f :: f in errors ==> errors[f] == ValidateField(f, Get(form, f))
  {
    Gather(form, Fields)
  }
}
