/** The InfluxDB line protocol as a reader sees it: escaping, and a tokenizer
  * for whole lines that serves as the specification of the formatter.
  */
module LineProtocol {
  import opened Common
  import opened Text

  /** Characters that end a measurement name, and those that end a tag or field part. */
  const NAME_SPECIALS: set<char> := {',', ' '}
  const TAG_SPECIALS: set<char> := {',', '=', ' '}

  // ---------------------------------------------------------------------
  // Escaping
  // ---------------------------------------------------------------------

  /** A backslash before every special character; backslashes stay as they are. */
  function Escape(specials: set<char>, s: string): string {
    if s == [] then []
    else (if s[0] in specials then ['\\', s[0]] else [s[0]]) + Escape(specials, s[1..])
  }

  /** A backslash before a special character goes; any other stands for itself. */
  function Unescape(specials: set<char>, s: string): string {
    if s == [] then []
    else if s[0] == '\\' && |s| > 1 && s[1] in specials then [s[1]] + Unescape(specials, s[2..])
    else [s[0]] + Unescape(specials, s[1..])
  }

  predicate NeedsEscape(specials: set<char>, s: string) {
    exists c <- s :: c in specials
  }

  predicate EndsInBackslash(s: string) {
    s != [] && Last(s) == '\\'
  }

  lemma {:induction false} EscapeAppends(specials: set<char>, s: string, c: char)
    ensures Escape(specials, s + [c]) == Escape(specials, s) + if c in specials then ['\\', c] else [c]
  {
    if s == [] {
      assert s + [c] == [c];
    } else {
      EscapeAppends(specials, s[1..], c);
      assert (s + [c])[1..] == s[1..] + [c];
    }
  }

  /** What is escaped: commas and spaces in a measurement name, equals signs as well in a tag. */
  lemma EscapesExactly(s: string, c: char)
    ensures Escape(NAME_SPECIALS, []) == Escape(TAG_SPECIALS, []) == []
    ensures Escape(NAME_SPECIALS, s + [c]) ==
      Escape(NAME_SPECIALS, s) + if c == ',' || c == ' ' then "\\" + [c] else [c]
    ensures Escape(TAG_SPECIALS, s + [c]) ==
      Escape(TAG_SPECIALS, s) + if c == ',' || c == '=' || c == ' ' then "\\" + [c] else [c]
  {
    EscapeAppends(NAME_SPECIALS, s, c);
    EscapeAppends(TAG_SPECIALS, s, c);
  }

  lemma UnescapeOneMore(specials: set<char>, s: string)
    requires '\\' !in specials && s != []
    ensures Unescape(specials, Escape(specials, s)) == [s[0]] + Unescape(specials, Escape(specials, s[1..]))
  {
  }

  /** Escaping can be undone, for every text, backslashes included. */
  lemma {:induction false} UnescapeUndoesEscape(specials: set<char>, s: string)
    requires '\\' !in specials
    ensures Unescape(specials, Escape(specials, s)) == s
  {
    if s != [] {
      UnescapeOneMore(specials, s);
      UnescapeUndoesEscape(specials, s[1..]);
    }
  }

  lemma EscapeIsInjective(specials: set<char>, s: string, t: string)
    requires '\\' !in specials && Escape(specials, s) == Escape(specials, t)
    ensures s == t
  {
    UnescapeUndoesEscape(specials, s);
    UnescapeUndoesEscape(specials, t);
  }

  /** No special character is written without a backslash before it. */
  lemma {:induction false} SpecialsAreGuarded(specials: set<char>, s: string, i: nat)
    requires '\\' !in specials && i < |Escape(specials, s)| && Escape(specials, s)[i] in specials
    ensures i > 0 && Escape(specials, s)[i - 1] == '\\'
  {
    var width := if s[0] in specials then 2 else 1;
    if i >= width {
      assert Escape(specials, s)[i] == Escape(specials, s[1..])[i - width];
      SpecialsAreGuarded(specials, s[1..], i - width);
    }
  }

  /** Escaping a text changes it exactly when it has a special character. */
  lemma {:induction false} EscapeIsIdentityWhenPlain(specials: set<char>, s: string)
    ensures Escape(specials, s) == s <==> !NeedsEscape(specials, s)
    ensures |Escape(specials, s)| >= |s|
  {
    if s != [] {
      EscapeIsIdentityWhenPlain(specials, s[1..]);
      assert s == [s[0]] + s[1..];
      if s[0] in specials {
        assert |Escape(specials, s)| > |s|;
      } else {
        assert Escape(specials, s)[1..] == Escape(specials, s[1..]);
        assert NeedsEscape(specials, s) <==> NeedsEscape(specials, s[1..]);
      }
    }
  }

  // ---------------------------------------------------------------------
  // Tokens
  // ---------------------------------------------------------------------

  /** The unescaped text up to the first special character with no backslash
    * before it, and what is left from there.
    */
  function ReadToken(specials: set<char>, s: string): (r: (string, string))
    ensures |r.1| <= |s| && (r.1 == [] || r.1[0] in specials)
  {
    if s == [] then ([], [])
    else if s[0] == '\\' && |s| > 1 && s[1] in specials then
      var (token, rest) := ReadToken(specials, s[2..]);
      ([s[1]] + token, rest)
    else if s[0] in specials then ([], s)
    else
      var (token, rest) := ReadToken(specials, s[1..]);
      ([s[0]] + token, rest)
  }

  /** An escaped text is read back whole before a special character, unless it
    * ends in a backslash: then the reader takes that special as escaped.
    */
  lemma {:induction false} ReadEscaped(specials: set<char>, s: string, end: char, rest: string)
    requires '\\' !in specials && end in specials
    ensures ReadToken(specials, Escape(specials, s) + [end] + rest) == (s, [end] + rest) <==> !EndsInBackslash(s)
    ensures EndsInBackslash(s) ==>
      var token := ReadToken(specials, Escape(specials, s) + [end] + rest).0;
      |token| >= |s| && token[..|s|] == Front(s) + [end]
  {
    var text := Escape(specials, s) + [end] + rest;
    if s == [] {
      assert text == [end] + rest;
    } else if s == ['\\'] {
      assert Escape(specials, s) == ['\\'] + Escape(specials, s[1..]) == ['\\'];
      assert text[0] == '\\' && text[1] == end;
      assert Front(s) + [end] == [end];
    } else {
      var more := Escape(specials, s[1..]) + [end] + rest;
      ReadEscaped(specials, s[1..], end, rest);
      assert s == [s[0]] + s[1..] && (s[1..] != [] ==> Last(s) == Last(s[1..]));
      assert EndsInBackslash(s) ==> s[1..] != [] && Front(s) == [s[0]] + Front(s[1..]);
      ReadOneMore(specials, s, end, rest);
      if EndsInBackslash(s) {
        var token := ReadToken(specials, more).0;
        assert ([s[0]] + token)[..|s|] == [s[0]] + token[..|s| - 1];
      }
    }
  }

  lemma SwallowedEnd(specials: set<char>, s: string, end: char, rest: string)
    requires '\\' !in specials && end in specials && EndsInBackslash(s)
    ensures ReadToken(specials, Escape(specials, s) + [end] + rest).0 != s
  {
    ReadEscaped(specials, s, end, rest);
    var token := ReadToken(specials, Escape(specials, s) + [end] + rest).0;
    assert token[..|s|][|s| - 1] == end;
  }

  lemma EscapeOneMore(specials: set<char>, s: string, end: char, rest: string)
    requires s != []
    ensures Escape(specials, s) + [end] + rest ==
      (if s[0] in specials then ['\\', s[0]] else [s[0]]) + (Escape(specials, s[1..]) + [end] + rest)
  {
  }

  /** Reading the first character of an escaped text leaves the rest as it was. */
  lemma ReadOneMore(specials: set<char>, s: string, end: char, rest: string)
    requires '\\' !in specials && end in specials && s != [] && s != ['\\']
    ensures var (token, left) := ReadToken(specials, Escape(specials, s[1..]) + [end] + rest);
            ReadToken(specials, Escape(specials, s) + [end] + rest) == ([s[0]] + token, left)
  {
    var more := Escape(specials, s[1..]) + [end] + rest;
    EscapeOneMore(specials, s, end, rest);
    if s[0] in specials {
      assert (['\\', s[0]] + more)[2..] == more;
    } else {
      assert ([s[0]] + more)[1..] == more;
      assert s[0] == '\\' ==> s[1..] != [] && more[0] !in specials;
    }
  }

  // ---------------------------------------------------------------------
  // Lines
  // ---------------------------------------------------------------------

  type Pair = (string, string)

  datatype Line = Line(measurement: string, tags: seq<Pair>, fields: seq<Pair>, timestamp: nat)

  /** The rest of `s` after `c`, if `s` starts with it. */
  function Expect(s: string, c: char): Option<string> {
    if s != [] && s[0] == c then Some(s[1..]) else None
  }

  /** key=value, once or more, between commas. */
  function ReadPairs(s: string): Option<(seq<Pair>, string)>
    decreases |s|
  {
    var (key, afterKey) := ReadToken(TAG_SPECIALS, s);
    match Expect(afterKey, '=')
    case None => None
    case Some(valueText) =>
      var (value, rest) := ReadToken(TAG_SPECIALS, valueText);
      match Expect(rest, ',')
      case None => Some(([(key, value)], rest))
      case Some(next) =>
        match ReadPairs(next)
        case None => None
        case Some((pairs, left)) => Some(([(key, value)] + pairs, left))
  }

  /** Fields and a timestamp. */
  function ReadFields(measurement: string, tags: seq<Pair>, s: string): Option<Line> {
    match ReadPairs(s)
    case None => None
    case Some((fields, rest)) =>
      match Expect(rest, ' ')
      case None => None
      case Some(digits) =>
        match ReadDigits(digits)
        case None => None
        case Some(timestamp) => Some(Line(measurement, tags, fields, timestamp))
  }

  /** A measurement name, tags if there are any, fields and a timestamp. */
  function ReadLine(s: string): Option<Line> {
    var (measurement, rest) := ReadToken(NAME_SPECIALS, s);
    match Expect(rest, ',')
    case Some(tagText) =>
      (match ReadPairs(tagText)
       case None => None
       case Some((tags, left)) =>
         match Expect(left, ' ')
         case None => None
         case Some(fieldText) => ReadFields(measurement, tags, fieldText))
    case None =>
      match Expect(rest, ' ')
      case None => None
      case Some(fieldText) => ReadFields(measurement, [], fieldText)
  }

  /** The measurement of a line is its first token. */
  lemma MeasurementIsFirstToken(s: string)
    requires ReadLine(s).Some?
    ensures ReadLine(s).value.measurement == ReadToken(NAME_SPECIALS, s).0
  {
  }

  /** After a measurement name and tags that are read whole, the fields decide. */
  lemma ReadLineAfterTags(s: string, measurement: string, after: string, tags: seq<Pair>, fieldText: string)
    requires ReadToken(NAME_SPECIALS, s) == (measurement, [','] + after)
    requires ReadPairs(after) == Some((tags, " " + fieldText))
    ensures ReadLine(s) == ReadFields(measurement, tags, fieldText)
  {
  }

  /** The tags of a line are the pairs after its name. */
  lemma TagsAreFirstPairs(s: string, measurement: string, after: string)
    requires ReadToken(NAME_SPECIALS, s) == (measurement, [','] + after)
    requires ReadLine(s).Some?
    ensures ReadPairs(after).Some? && ReadLine(s).value.tags == ReadPairs(after).value.0
  {
  }

  // ---------------------------------------------------------------------
  // Reading back what was written
  // ---------------------------------------------------------------------

  /** Text with no special character and no backslash, which needs no escaping. */
  predicate Plain(s: string) {
    '\\' !in s && !NeedsEscape(TAG_SPECIALS, s)
  }

  function WritePair(pair: Pair): string {
    pair.0 + "=" + Escape(TAG_SPECIALS, pair.1)
  }

  function WritePairs(pairs: seq<Pair>): string {
    if pairs == [] then []
    else if |pairs| == 1 then WritePair(pairs[0])
    else WritePair(pairs[0]) + "," + WritePairs(pairs[1..])
  }

  /** A plain key is read up to the equals sign. */
  lemma ReadKey(key: string, after: string)
    requires Plain(key)
    ensures ReadToken(TAG_SPECIALS, key + ['='] + after) == (key, ['='] + after)
  {
    EscapeIsIdentityWhenPlain(TAG_SPECIALS, key);
    ReadEscaped(TAG_SPECIALS, key, '=', after);
  }

  /** A written pair is its key, an equals sign and the escaped value. */
  lemma WrittenPair(pair: Pair, end: char, rest: string)
    ensures WritePair(pair) + [end] + rest == pair.0 + ['='] + (Escape(TAG_SPECIALS, pair.1) + [end] + rest)
  {
  }

  /** Reading one written pair. */
  lemma ReadPair(pair: Pair, end: char, rest: string)
    requires Plain(pair.0) && !EndsInBackslash(pair.1) && end in TAG_SPECIALS
    ensures ReadToken(TAG_SPECIALS, WritePair(pair) + [end] + rest)
         == (pair.0, ['='] + (Escape(TAG_SPECIALS, pair.1) + [end] + rest))
    ensures ReadToken(TAG_SPECIALS, Escape(TAG_SPECIALS, pair.1) + [end] + rest) == (pair.1, [end] + rest)
  {
    WrittenPair(pair, end, rest);
    ReadKey(pair.0, Escape(TAG_SPECIALS, pair.1) + [end] + rest);
    ReadEscaped(TAG_SPECIALS, pair.1, end, rest);
  }

  lemma ReadPairThenMore(pair: Pair, end: char, rest: string)
    requires Plain(pair.0) && !EndsInBackslash(pair.1) && end in TAG_SPECIALS
    ensures ReadPairs(WritePair(pair) + [end] + rest) ==
      if end != ',' then Some(([pair], [end] + rest))
      else match ReadPairs(rest)
        case None => None
        case Some((pairs, left)) => Some(([pair] + pairs, left))
  {
    var value := Escape(TAG_SPECIALS, pair.1) + [end] + rest;
    ReadPair(pair, end, rest);
    assert (['='] + value)[1..] == value;
    assert ([end] + rest)[1..] == rest;
    assert pair == (pair.0, pair.1);
  }

  lemma WritePairsFirst(pairs: seq<Pair>, rest: string)
    requires |pairs| > 1
    ensures WritePairs(pairs) + " " + rest == WritePair(pairs[0]) + [','] + (WritePairs(pairs[1..]) + " " + rest)
  {
    var first, others := WritePair(pairs[0]) + ",", WritePairs(pairs[1..]);
    assert WritePairs(pairs) == first + others;
    Regroup(first, others, " ");
    Regroup(first, others + " ", rest);
  }

  /** Written pairs are read back whole, up to the space after them. */
  lemma {:induction false} ReadWrittenPairs(pairs: seq<Pair>, rest: string)
    requires pairs != [] && forall pair <- pairs :: Plain(pair.0) && !EndsInBackslash(pair.1)
    ensures ReadPairs(WritePairs(pairs) + " " + rest) == Some((pairs, " " + rest))
  {
    if |pairs| == 1 {
      ReadPairThenMore(pairs[0], ' ', rest);
      assert pairs == [pairs[0]];
    } else {
      WritePairsFirst(pairs, rest);
      ReadWrittenPairs(pairs[1..], rest);
      ReadPairThenMore(pairs[0], ',', WritePairs(pairs[1..]) + " " + rest);
      assert pairs == [pairs[0]] + pairs[1..];
    }
  }

  /** A value that ends in a backslash is not read back. */
  lemma MisreadValue(pair: Pair, rest: string)
    requires Plain(pair.0) && EndsInBackslash(pair.1)
    ensures var r := ReadPairs(WritePair(pair) + " " + rest);
            r.Some? ==> r.value.0 != [] && r.value.0[0] != pair
  {
    var value := Escape(TAG_SPECIALS, pair.1) + [' '] + rest;
    WrittenPair(pair, ' ', rest);
    ReadKey(pair.0, value);
    assert (['='] + value)[1..] == value;
    SwallowedEnd(TAG_SPECIALS, pair.1, ' ', rest);
  }

  lemma {:induction false} WritePairsAppends(pairs: seq<Pair>, pair: Pair)
    ensures WritePairs(pairs + [pair]) == WritePairs(pairs) + ((if pairs == [] then "" else ",") + WritePair(pair))
  {
    if pairs == [] {
      assert pairs + [pair] == [pair];
    } else {
      WritePairsAppends(pairs[1..], pair);
      assert (pairs + [pair])[1..] == pairs[1..] + [pair];
    }
  }
}
