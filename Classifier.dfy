/**
 The text classifier `should_translate` (ebook-translator.py:26-32): decides
 whether a stripped text fragment is prose worth sending to the translator,
 or page numbering, a short fragment or a roman-numeral heading.
 */
module Classifier {
  import opened Text

  /** Fragments this long or shorter are never translated. */
  const MaxSkippedLength: nat := 3

  /** The roman numerals I..XX, compared against the upper-cased text. */
  const RomanNumerals: seq<string> := [
    "I", "II", "III", "IV", "V", "VI", "VII", "VIII", "IX", "X",
    "XI", "XII", "XIII", "XIV", "XV", "XVI", "XVII", "XVIII", "XIX", "XX"]

  /** The numerals of the list that are longer than `MaxSkippedLength`. */
  const LongRomanNumerals: seq<string> := ["VIII", "XIII", "XVII", "XVIII"]

  /** `should_translate`: the digit and length rules first, then the
      case-insensitive numeral list. */
  predicate ShouldTranslate(text: string) {
    if IsDigits(text) || |text| <= MaxSkippedLength then false
    else if Listed(Upper(text), RomanNumerals) then false
    else true
  }

  /** Page numbers and other all-digit fragments are never translated. */
  lemma DigitsNotTranslated(text: string)
    requires IsDigits(text)
    ensures !ShouldTranslate(text)
  {
  }

  /** Fragments of at most three characters, the empty one included, are
      never translated. */
  lemma ShortNotTranslated(text: string)
    requires |text| <= MaxSkippedLength
    ensures !ShouldTranslate(text)
  {
  }

  /** A numeral I..XX in any mix of cases is never translated. */
  lemma NumeralsNotTranslated(text: string)
    requires Upper(text) in RomanNumerals
    ensures !ShouldTranslate(text)
  {
    ListedIsMembership(Upper(text), RomanNumerals);
  }

  /** The numerals that survive the length rule are exactly the four long ones. */
  lemma {:induction false} LongNumeralsOfList()
    ensures forall n :: n in RomanNumerals && |n| > MaxSkippedLength <==> n in LongRomanNumerals
  {
    assert forall k :: 0 <= k < |RomanNumerals| ==>
      (|RomanNumerals[k]| > MaxSkippedLength <==> RomanNumerals[k] in LongRomanNumerals);
    assert forall k :: 0 <= k < |LongRomanNumerals| ==> LongRomanNumerals[k] in RomanNumerals;
  }

  /** The classifier in one statement: a fragment is translated exactly when
      it is not all digits, is longer than three characters and is not one of
      VIII, XIII, XVII, XVIII in any case. The rest of the numeral list is
      dead, the length rule having rejected it already. */
  lemma {:induction false} ShouldTranslateExactly(text: string)
    ensures ShouldTranslate(text) <==>
      !IsDigits(text) && |text| > MaxSkippedLength && Upper(text) !in LongRomanNumerals
  {
    ListedIsMembership(Upper(text), RomanNumerals);
    LongNumeralsOfList();
  }

  /** The classifier ignores case: upper-casing a fragment first changes
      nothing. */
  lemma {:induction false} ShouldTranslateIgnoresCase(text: string)
    ensures ShouldTranslate(Upper(text)) == ShouldTranslate(text)
  {
    UpperIdempotent(text);
    UpperKeepsDigits(text);
  }

  /** Prose is translated. */
  lemma ProseExample()
    ensures ShouldTranslate("Hello world")
  {
    assert !IsDigits("Hello world") by { assert !('0' <= "Hello world"[0] <= '9'); }
    ShouldTranslateExactly("Hello world");
  }

  /** Page numbers, short fragments and short numerals are not. */
  lemma NumberingExample()
    ensures !ShouldTranslate("3") && !ShouldTranslate("1234")
    ensures !ShouldTranslate("Hi") && !ShouldTranslate("vii")
  {
    ShortNotTranslated("3");
    ShortNotTranslated("Hi");
    ShortNotTranslated("vii");
    assert IsDigits("1234") by {
      forall i | 0 <= i < 4 ensures '0' <= "1234"[i] <= '9' { }
    }
    DigitsNotTranslated("1234");
  }

  /** The long numerals of the list are skipped in any case. */
  lemma LongNumeralExample()
    ensures !ShouldTranslate("xviii") && !ShouldTranslate("XIII")
  {
    assert Upper("xviii") == "XVIII";
    assert Upper("XIII") == "XIII";
    ShouldTranslateExactly("xviii");
    ShouldTranslateExactly("XIII");
  }

  /** A numeral beyond the list counts as prose. */
  lemma NumeralBeyondListExample()
    ensures ShouldTranslate("XXIV")
  {
    assert !IsDigits("XXIV") by { assert !('0' <= "XXIV"[0] <= '9'); }
    UpperOfNumeral();
    ShouldTranslateExactly("XXIV");
  }

  /** XXIV is its own upper case and not one of the long numerals. */
  lemma UpperOfNumeral()
    ensures Upper("XXIV") == "XXIV" && "XXIV" !in LongRomanNumerals
  {
    assert Upper("XXIV") == "XXIV";
  }
}
