/** parse_duration of src/throttle.rs. */
module Durations {
  import opened Common
  import opened Text

  datatype Unit = Plain | Seconds | Minutes | Hours | Millis

  datatype DurationError = Empty | Invalid(unit: Unit)

  function Suffix(unit: Unit): string {
    match unit
    case Plain => ""
    case Seconds => "s"
    case Minutes => "m"
    case Hours => "h"
    case Millis => "ms"
  }

  /** What a number is multiplied by before it becomes a duration. */
  function Factor(unit: Unit): nat {
    match unit
    case Minutes => 60
    case Hours => 3600
    case _ => 1
  }

  /** The nanoseconds in what the product counts: milliseconds or seconds. */
  function Base(unit: Unit): nat {
    if unit == Millis then 1_000_000 else 1_000_000_000
  }

  function StripSuffix(s: string, suffix: string): Option<string> {
    if |suffix| <= |s| && s[|s| - |suffix|..] == suffix then Some(s[..|s| - |suffix|]) else None
  }

  /** u64 multiplication as a release build does it: the product wraps around. */
  function WrappingMul(n: nat, factor: nat): nat {
    n * factor % (U64_MAX + 1)
  }

  function Convert(number: string, unit: Unit): Result<nat, DurationError> {
    match ParseU64(number)
    case None => Err(Invalid(unit))
    case Some(n) => Ok(WrappingMul(n, Factor(unit)) * Base(unit))
  }

  /** The duration in nanoseconds. */
  function ParseDuration(src: string): Result<nat, DurationError> {
    ParseTrimmed(Trim(src))
  }

  function ParseTrimmed(s: string): Result<nat, DurationError> {
    if s == [] then Err(Empty)
    else match StripSuffix(s, "ms")
      case Some(num) => Convert(Trim(num), Millis)
      case None =>
        match StripSuffix(s, "h")
        case Some(num) => Convert(Trim(num), Hours)
        case None =>
          match StripSuffix(s, "m")
          case Some(num) => Convert(Trim(num), Minutes)
          case None =>
            match StripSuffix(s, "s")
            case Some(num) => Convert(Trim(num), Seconds)
            case None => Convert(s, Plain)
  }

  lemma StripsItsSuffix(number: string, suffix: string)
    ensures StripSuffix(number + suffix, suffix) == Some(number)
  {
  }

  lemma KeepsOtherEndings(s: string, suffix: string)
    requires s != [] && suffix != [] && Last(s) != Last(suffix)
    ensures StripSuffix(s, suffix) == None
  {
  }

  /** A number in seconds is not one in milliseconds. */
  lemma SecondsAreNotMillis(number: string)
    requires number != [] && Last(number) != 'm'
    ensures StripSuffix(number + "s", "ms") == None
  {
    var s := number + "s";
    assert s[|s| - 2..][0] == Last(number);
  }

  /** A text ending in the suffix of a unit is read in that unit. */
  lemma ReadInItsUnit(number: string, unit: Unit)
    requires number != []
    requires IsDigit(Last(number)) || (IsWhitespace(Last(number)) && unit != Plain)
    ensures ParseTrimmed(number + Suffix(unit)) == Convert(if unit == Plain then number else Trim(number), unit)
  {
    var s := number + Suffix(unit);
    StripsItsSuffix(number, Suffix(unit));
    match unit
    case Millis =>
    case Seconds =>
      SecondsAreNotMillis(number);
      KeepsOtherEndings(s, "h");
      KeepsOtherEndings(s, "m");
    case _ =>
      assert unit == Plain ==> s == number;
      KeepsOtherEndings(s, "ms");
      if unit != Hours {
        KeepsOtherEndings(s, "h");
        if unit != Minutes {
          KeepsOtherEndings(s, "m");
          KeepsOtherEndings(s, "s");
        }
      }
  }

  lemma DigitsAreVisible(c: char)
    requires IsDigit(c)
    ensures !IsWhitespace(c)
  {
  }

  /** The number of a printed duration, with the white space before its suffix. */
  function NumberPart(n: nat, between: string, unit: Unit): (s: string)
    ensures s != []
  {
    if unit == Plain then Decimal(n) else Decimal(n) + between
  }

  lemma DecimalIsVisible(n: nat)
    ensures !IsWhitespace(Decimal(n)[0]) && !IsWhitespace(Last(Decimal(n)))
    ensures IsDigit(Last(Decimal(n)))
  {
  }

  lemma PaddingGoes(before: string, n: nat, between: string, unit: Unit, after: string)
    requires Blank(before) && Blank(between) && Blank(after)
    ensures Trim(before + Decimal(n) + between + Suffix(unit) + after) == NumberPart(n, between, unit) + Suffix(unit)
  {
    var s := NumberPart(n, between, unit) + Suffix(unit);
    var padding := if unit == Plain then between + after else after;
    DecimalIsVisible(n);
    assert before + Decimal(n) + between + Suffix(unit) + after == before + s + padding;
    assert unit == Plain ==> s == Decimal(n);
    assert s[0] == Decimal(n)[0];
    TrimRemovesPadding(before, s, padding);
  }

  lemma NumberTrims(n: nat, between: string, unit: Unit)
    requires Blank(between)
    ensures unit != Plain ==> Trim(NumberPart(n, between, unit)) == Decimal(n)
    ensures var last := Last(NumberPart(n, between, unit)); IsDigit(last) || (IsWhitespace(last) && unit != Plain)
  {
    DecimalIsVisible(n);
    TrimRemovesPadding("", Decimal(n), between);
    assert "" + Decimal(n) + between == Decimal(n) + between;
    assert between != [] ==> Last(Decimal(n) + between) == Last(between) && Last(between) in between;
    assert Decimal(n) + [] == Decimal(n);
  }

  lemma NumberIsRead(n: nat, between: string, unit: Unit)
    requires Blank(between)
    ensures ParseTrimmed(NumberPart(n, between, unit) + Suffix(unit)) == Convert(Decimal(n), unit)
  {
    NumberTrims(n, between, unit);
    ReadInItsUnit(NumberPart(n, between, unit), unit);
  }

  /** A printed number with a suffix, and white space around its parts, is read
    * as that number in that unit; a number over u64 is refused.
    */
  lemma ParsePrintedDuration(before: string, n: nat, between: string, unit: Unit, after: string)
    requires Blank(before) && Blank(between) && Blank(after)
    ensures ParseDuration(before + Decimal(n) + between + Suffix(unit) + after) ==
      if n > 0xFFFF_FFFF_FFFF_FFFF then Err(Invalid(unit))
      else
        match unit
        case Plain => Ok(n * 1_000_000_000)
        case Seconds => Ok(n * 1_000_000_000)
        case Millis => Ok(n * 1_000_000)
        case Minutes => Ok(n * 60 % 0x1_0000_0000_0000_0000 * 1_000_000_000)
        case Hours => Ok(n * 3600 % 0x1_0000_0000_0000_0000 * 1_000_000_000)
  {
    PaddingGoes(before, n, between, unit, after);
    NumberIsRead(n, between, unit);
    ParseU64Decimal(n);
    if n <= U64_MAX {
      ConvertsExactly(Decimal(n), n);
    }
  }

  /** A number as it is accepted, white space, and a suffix. */
  predicate Reads(s: string, number: string, between: string, unit: Unit) {
    s == number + between + Suffix(unit) && Blank(between) && (unit == Plain ==> between == []) &&
    ParseU64(number).Some?
  }

  lemma NumberThenBlank(number: string, between: string)
    requires ParseU64(number).Some? && Blank(between)
    ensures var last := Last(number + between); IsDigit(last) || (IsWhitespace(last) && between != [])
    ensures Trim(number + between) == number
  {
    ParseU64Ends(number);
    DigitsAreVisible(Last(number));
    assert IsDigit(number[0]) ==> !IsWhitespace(number[0]);
    assert between != [] ==> Last(number + between) == Last(between) && Last(between) in between;
    assert between == [] ==> number + between == number;
    TrimRemovesPadding("", number, between);
    assert "" + number + between == number + between;
  }

  /** What reads as a number in a unit is accepted as that. */
  lemma ReadsIsAccepted(s: string, number: string, between: string, unit: Unit)
    requires Reads(s, number, between, unit)
    ensures ParseTrimmed(s) == Convert(number, unit)
  {
    NumberThenBlank(number, between);
    ReadInItsUnit(number + between, unit);
    assert unit == Plain ==> number + between == number;
  }

  /** The unit that the last characters of a text pick. */
  function UnitOf(s: string): (unit: Unit)
    ensures StripSuffix(s, Suffix(unit)).Some?
    ensures var number := if unit == Plain then s else Trim(StripSuffix(s, Suffix(unit)).value);
            s != [] ==> ParseTrimmed(s) == Convert(number, unit)
  {
    if StripSuffix(s, "ms").Some? then Millis
    else if StripSuffix(s, "h").Some? then Hours
    else if StripSuffix(s, "m").Some? then Minutes
    else if StripSuffix(s, "s").Some? then Seconds
    else Plain
  }

  /** A text is accepted exactly when, trimmed, it reads as a number in a unit. */
  lemma AcceptsExactly(src: string)
    ensures ParseDuration(src).Ok? <==>
      exists number, between, unit :: Reads(Trim(src), number, between, unit)
  {
    var s := Trim(src);
    forall number, between, unit | Reads(s, number, between, unit) ensures ParseTrimmed(s).Ok? {
      ReadsIsAccepted(s, number, between, unit);
    }
    if ParseTrimmed(s).Ok? {
      var unit := UnitOf(s);
      if unit == Plain {
        assert Reads(s, s, [], Plain);
      } else {
        var text := StripSuffix(s, Suffix(unit)).value;
        TrimIsVisible(src);
        assert text != [] ==> text[0] == s[0];
        var between := TrimEndTakesBlank(text);
        assert Reads(s, Trim(text), between, unit);
      }
    }
  }

  /** Parsing inverts printing exactly when the product fits in a u64. */
  lemma ParseInvertsPrinting(before: string, n: nat, between: string, unit: Unit, after: string)
    requires Blank(before) && Blank(between) && Blank(after)
    ensures var r := ParseDuration(before + Decimal(n) + between + Suffix(unit) + after);
            match unit
            case Plain => r == Ok(n * 1_000_000_000) <==> n <= 0xFFFF_FFFF_FFFF_FFFF
            case Seconds => r == Ok(n * 1_000_000_000) <==> n <= 0xFFFF_FFFF_FFFF_FFFF
            case Millis => r == Ok(n * 1_000_000) <==> n <= 0xFFFF_FFFF_FFFF_FFFF
            case Minutes => r == Ok(n * 60 * 1_000_000_000) <==> n * 60 <= 0xFFFF_FFFF_FFFF_FFFF
            case Hours => r == Ok(n * 3600 * 1_000_000_000) <==> n * 3600 <= 0xFFFF_FFFF_FFFF_FFFF
  {
    ParsePrintedDuration(before, n, between, unit, after);
    WrapsAbove(n, 60);
    WrapsAbove(n, 3600);
  }

  // ---------------------------------------------------------------------
  // Units and errors, written out
  // ---------------------------------------------------------------------

  /** White space around the parts of what reads as a number in a unit does not matter. */
  lemma PaddedReads(before: string, number: string, between: string, unit: Unit, after: string)
    requires Blank(before) && Blank(between) && Blank(after) && ParseU64(number).Some?
    ensures ParseDuration(before + number + between + Suffix(unit) + after) == Convert(number, unit)
  {
    var gap := if unit == Plain then [] else between;
    var s, padding := number + gap + Suffix(unit), if unit == Plain then between + after else after;
    ParseU64Ends(number);
    assert s[0] == number[0];
    assert unit != Plain ==> Last(s) == Last(Suffix(unit));
    assert unit == Plain ==> s == number;
    assert before + number + between + Suffix(unit) + after == before + s + padding;
    TrimRemovesPadding(before, s, padding);
    ReadsIsAccepted(s, number, gap, unit);
  }

  lemma ConvertsExactly(number: string, n: nat)
    requires ParseU64(number) == Some(n)
    ensures Convert(number, Plain) == Convert(number, Seconds) == Ok(n * 1_000_000_000)
    ensures Convert(number, Millis) == Ok(n * 1_000_000)
    ensures Convert(number, Minutes) == Ok(n * 60 % 0x1_0000_0000_0000_0000 * 1_000_000_000)
    ensures Convert(number, Hours) == Ok(n * 3600 % 0x1_0000_0000_0000_0000 * 1_000_000_000)
  {
  }

  lemma WrapsAbove(n: nat, factor: nat)
    ensures n * factor % 0x1_0000_0000_0000_0000 == n * factor <==> n * factor <= 0xFFFF_FFFF_FFFF_FFFF
  {
  }

  /** A number without a suffix counts seconds; so does one with s. */
  lemma SecondsExactly(before: string, number: string, between: string, after: string, n: nat)
    requires Blank(before) && Blank(between) && Blank(after) && ParseU64(number) == Some(n)
    ensures ParseDuration(before + number + between + "" + after) == Ok(n * 1_000_000_000)
    ensures ParseDuration(before + number + between + "s" + after) == Ok(n * 1_000_000_000)
  {
    ConvertsExactly(number, n);
    PaddedReads(before, number, between, Plain, after);
    PaddedReads(before, number, between, Seconds, after);
  }

  lemma MillisExactly(before: string, number: string, between: string, after: string, n: nat)
    requires Blank(before) && Blank(between) && Blank(after) && ParseU64(number) == Some(n)
    ensures ParseDuration(before + number + between + "ms" + after) == Ok(n * 1_000_000)
  {
    ConvertsExactly(number, n);
    PaddedReads(before, number, between, Millis, after);
  }

  /** A minute is 60 seconds, as long as the seconds fit in a u64; else their number wraps around. */
  lemma MinutesExactly(before: string, number: string, between: string, after: string, n: nat)
    requires Blank(before) && Blank(between) && Blank(after) && ParseU64(number) == Some(n)
    ensures var r := ParseDuration(before + number + between + "m" + after);
            r == Ok(n * 60 % 0x1_0000_0000_0000_0000 * 1_000_000_000) &&
            (r == Ok(n * 60 * 1_000_000_000) <==> n * 60 <= 0xFFFF_FFFF_FFFF_FFFF)
  {
    ConvertsExactly(number, n);
    WrapsAbove(n, 60);
    PaddedReads(before, number, between, Minutes, after);
  }

  /** An hour is 3600 seconds, likewise. */
  lemma HoursExactly(before: string, number: string, between: string, after: string, n: nat)
    requires Blank(before) && Blank(between) && Blank(after) && ParseU64(number) == Some(n)
    ensures var r := ParseDuration(before + number + between + "h" + after);
            r == Ok(n * 3600 % 0x1_0000_0000_0000_0000 * 1_000_000_000) &&
            (r == Ok(n * 3600 * 1_000_000_000) <==> n * 3600 <= 0xFFFF_FFFF_FFFF_FFFF)
  {
    ConvertsExactly(number, n);
    WrapsAbove(n, 3600);
    PaddedReads(before, number, between, Hours, after);
  }

  /** The unit of the last letters of a text. */
  function LettersOf(s: string): Unit
    requires s != []
  {
    if |s| >= 2 && s[|s| - 2] == 'm' && Last(s) == 's' then Millis
    else if Last(s) == 'h' then Hours
    else if Last(s) == 'm' then Minutes
    else if Last(s) == 's' then Seconds
    else Plain
  }

  lemma EndsIn(s: string, letter: string)
    requires s != [] && |letter| == 1
    ensures StripSuffix(s, letter).Some? <==> Last(s) == letter[0]
  {
    assert s[|s| - 1..] == [Last(s)] && letter == [letter[0]];
  }

  lemma EndsInMillis(s: string)
    ensures StripSuffix(s, "ms").Some? <==> |s| >= 2 && s[|s| - 2] == 'm' && Last(s) == 's'
  {
    assert |s| >= 2 ==> s[|s| - 2..] == [s[|s| - 2], Last(s)];
  }

  lemma LettersPickUnit(s: string)
    requires s != []
    ensures UnitOf(s) == LettersOf(s)
  {
    EndsIn(s, "h");
    EndsIn(s, "m");
    EndsIn(s, "s");
    EndsInMillis(s);
  }

  lemma TrimmedRefused(s: string)
    requires s != []
    ensures ParseTrimmed(s) != Err(Empty)
    ensures ParseTrimmed(s).Err? ==> ParseTrimmed(s) == Err(Invalid(LettersOf(s)))
  {
    var unit := UnitOf(s);
    var number := if unit == Plain then s else Trim(StripSuffix(s, Suffix(unit)).value);
    LettersPickUnit(s);
    assert ParseTrimmed(s) == Convert(number, unit);
  }

  /** A blank text is empty; any other that is refused is invalid in the unit of its last letters. */
  lemma RefusesExactly(src: string)
    ensures ParseDuration(src) == Err(Empty) <==> Blank(src)
    ensures ParseDuration(src).Err? && !Blank(src) ==>
      Trim(src) != [] && ParseDuration(src) == Err(Invalid(LettersOf(Trim(src))))
  {
    BlankTrims(src);
    if Trim(src) != [] {
      TrimmedRefused(Trim(src));
    }
  }
}
