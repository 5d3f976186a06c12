/**
  Reading and writing the text of the calculator's number fields. The browser's
  `parseFloat` and `toLocaleString` are passed in as functions: `parseFloat`
  answers `None` where the browser answers NaN.
 */
module Parsing {

  datatype Option<+T> = None | Some(value: T)

  /** The characters of `s` other than thousands separators, in order. */
  function StripCommas(s: string): (t: string)
    ensures multiset(t) == multiset(s)[',' := 0]
    ensures |t| <= |s|
    decreases |s|
  {
    if |s| == 0 then []
    else
      assert s == [s[0]] + s[1..];
      if s[0] == ',' then StripCommas(s[1..]) else [s[0]] + StripCommas(s[1..])
  }

  /** Stripping distributes over concatenation, so the kept characters keep their order. */
  lemma {:induction false} StripCommasAppend(a: string, b: string)
    ensures StripCommas(a + b) == StripCommas(a) + StripCommas(b)
    decreases |a|
  {
    if |a| == 0 {
      assert a + b == b;
    } else {
      assert (a + b)[1..] == a[1..] + b;
      StripCommasAppend(a[1..], b);
    }
  }

  /** Text without commas is left as it is, and only such text is. */
  lemma {:induction false} StripCommasFixesCommaFree(s: string)
    ensures StripCommas(s) == s <==> ',' !in s
    decreases |s|
  {
    if |s| > 0 {
      StripCommasFixesCommaFree(s[1..]);
      if s[0] == ',' {
        assert |StripCommas(s)| <= |s[1..]| < |s|;
      }
    }
  }

  /** Stripping twice is stripping once. */
  lemma StripCommasIdempotent(s: string)
    ensures StripCommas(StripCommas(s)) == StripCommas(s)
  {
    var t := StripCommas(s);
    assert multiset(t)[','] == 0;
    StripCommasFixesCommaFree(t);
  }

  /** The number a field's text denotes: separators dropped, NaN read as 0. */
  function ParseFormattedNumber(value: string, parseFloat: string -> Option<real>): (r: real)
    ensures parseFloat(StripCommas(value)).None? ==> r == 0.0
    ensures parseFloat(StripCommas(value)).Some? ==> r == parseFloat(StripCommas(value)).value
  {
    match parseFloat(StripCommas(value))
    case None => 0.0
    case Some(x) => x
  }

  /** A field reads the same as its text with the separators already removed. */
  lemma ParseSeesOnlyStrippedText(value: string, parseFloat: string -> Option<real>)
    ensures ParseFormattedNumber(value, parseFloat) == ParseFormattedNumber(StripCommas(value), parseFloat)
  {
    StripCommasIdempotent(value);
  }

  /** A leading separator is dropped. */
  lemma StripLeadingComma(b: string)
    ensures StripCommas([','] + b) == StripCommas(b)
  {
    assert ([','] + b)[1..] == b;
  }

  /** Inserting a separator between two texts does not change the stripped text. */
  lemma StripInsertedComma(a: string, b: string)
    ensures StripCommas(a + "," + b) == StripCommas(a + b)
  {
    assert a + "," + b == a + ([','] + b);
    StripCommasAppend(a, [','] + b);
    StripLeadingComma(b);
    StripCommasAppend(a, b);
  }

  /** A separator typed anywhere in a field does not change the number read from it. */
  lemma ParseIgnoresInsertedComma(value: string, i: nat, parseFloat: string -> Option<real>)
    requires i <= |value|
    ensures ParseFormattedNumber(value[..i] + "," + value[i..], parseFloat)
         == ParseFormattedNumber(value, parseFloat)
  {
    StripInsertedComma(value[..i], value[i..]);
    assert value[..i] + value[i..] == value;
  }

  /** A field holding nothing but separators strips to the empty text. */
  lemma {:induction false} StripOnlyCommas(value: string)
    requires forall i :: 0 <= i < |value| ==> value[i] == ','
    ensures StripCommas(value) == []
    decreases |value|
  {
    if |value| > 0 {
      StripOnlyCommas(value[1..]);
    }
  }

  /** The empty field, and a field holding only separators, reads as 0. */
  lemma EmptyFieldReadsZero(value: string, parseFloat: string -> Option<real>)
    requires parseFloat("").None?
    requires forall i :: 0 <= i < |value| ==> value[i] == ','
    ensures ParseFormattedNumber(value, parseFloat) == 0.0
  {
    StripOnlyCommas(value);
  }

  /** The text shown in an input field: empty for 0, the locale rendering otherwise. */
  function FormatInputValue(num: real, toLocaleString: real -> string): (s: string)
    ensures num == 0.0 ==> s == ""
    ensures num != 0.0 ==> s == toLocaleString(num)
  {
    if num == 0.0 then "" else toLocaleString(num)
  }

  /** A field showing 0 is blank, and blank reads back as 0. */
  lemma ZeroFieldRoundTrip(toLocaleString: real -> string, parseFloat: string -> Option<real>)
    requires parseFloat("").None?
    ensures ParseFormattedNumber(FormatInputValue(0.0, toLocaleString), parseFloat) == 0.0
  {
  }
}
