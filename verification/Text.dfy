/** Text operations of the Rust standard library the listener relies on. */
module Text {
  import opened Common

  // ---------------------------------------------------------------------
  // Splitting
  // ---------------------------------------------------------------------

  /** str::split on one character: never empty. */
  function Split(s: string, separator: char): (parts: seq<string>)
    ensures parts != []
  {
    if s == [] then [[]]
    else
      var rest := Split(s[1..], separator);
      if s[0] == separator then [[]] + rest else [[s[0]] + rest[0]] + rest[1..]
  }

  function Join(parts: seq<string>, separator: char): string {
    if parts == [] then []
    else if |parts| == 1 then parts[0]
    else parts[0] + [separator] + Join(parts[1..], separator)
  }

  lemma {:induction false} SplitHead(head: string, separator: char, tail: string)
    requires separator !in head
    ensures Split(head + [separator] + tail, separator) == [head] + Split(tail, separator)
    ensures Split(head, separator) == [head]
  {
    if head == [] {
      assert ([separator] + tail)[1..] == tail;
      assert head + [separator] + tail == [separator] + tail;
    } else {
      SplitHead(head[1..], separator, tail);
      assert (head + [separator] + tail)[1..] == head[1..] + [separator] + tail;
      assert [head[0]] + head[1..] == head;
    }
  }

  /** Parts without the separator survive joining and splitting. */
  lemma {:induction false} SplitJoin(parts: seq<string>, separator: char)
    requires parts != [] && forall part <- parts :: separator !in part
    ensures Split(Join(parts, separator), separator) == parts
  {
    if |parts| == 1 {
      SplitHead(parts[0], separator, []);
    } else {
      SplitJoin(parts[1..], separator);
      SplitHead(parts[0], separator, Join(parts[1..], separator));
    }
  }

  lemma JoinMore(part: string, rest: seq<string>, separator: char)
    requires rest != []
    ensures Join([part] + rest, separator) == part + [separator] + Join(rest, separator)
  {
    assert ([part] + rest)[1..] == rest;
  }

  lemma JoinPrepend(c: char, parts: seq<string>, separator: char)
    requires parts != []
    ensures Join([[c] + parts[0]] + parts[1..], separator) == [c] + Join(parts, separator)
  {
    if |parts| > 1 {
      JoinMore([c] + parts[0], parts[1..], separator);
    }
  }

  /** Splitting loses nothing. */
  lemma {:induction false} JoinSplit(s: string, separator: char)
    ensures Join(Split(s, separator), separator) == s
  {
    if s != [] {
      JoinSplit(s[1..], separator);
      if s[0] == separator {
        JoinMore([], Split(s[1..], separator), separator);
      } else {
        JoinPrepend(s[0], Split(s[1..], separator), separator);
      }
    }
  }

  /** The text of lines as they are written, each ended by a newline. */
  function Unlines(lines: seq<string>): string {
    if lines == [] then [] else lines[0] + "\n" + Unlines(lines[1..])
  }

  lemma {:induction false} UnlinesSplit(lines: seq<string>)
    requires forall line <- lines :: '\n' !in line
    ensures Split(Unlines(lines), '\n') == lines + [[]]
  {
    if lines != [] {
      SplitHead(lines[0], '\n', Unlines(lines[1..]));
      UnlinesSplit(lines[1..]);
    }
  }

  function Count(s: string, c: char): nat {
    if s == [] then 0 else Count(s[1..], c) + if s[0] == c then 1 else 0
  }

  lemma {:induction false} SplitCounts(s: string, separator: char)
    ensures |Split(s, separator)| == Count(s, separator) + 1
  {
    if s != [] {
      SplitCounts(s[1..], separator);
    }
  }

  lemma {:induction false} CountAppend(s: string, t: string, c: char)
    ensures Count(s + t, c) == Count(s, c) + Count(t, c)
  {
    if s == [] {
      assert s + t == t;
    } else {
      CountAppend(s[1..], t, c);
      assert (s + t)[1..] == s[1..] + t;
    }
  }

  lemma {:induction false} CountsPresence(s: string, c: char)
    ensures Count(s, c) == 0 <==> c !in s
  {
    if s != [] {
      CountsPresence(s[1..], c);
    }
  }

  lemma {:induction false} NewlinesOfLines(lines: seq<string>)
    ensures Count(Unlines(lines), '\n') >= |lines|
    ensures Count(Unlines(lines), '\n') == |lines| <==> forall line <- lines :: '\n' !in line
  {
    if lines != [] {
      NewlinesOfLines(lines[1..]);
      CountAppend(lines[0] + "\n", Unlines(lines[1..]), '\n');
      CountAppend(lines[0], "\n", '\n');
      assert Count("\n", '\n') == 1;
      CountsPresence(lines[0], '\n');
      assert lines == [lines[0]] + lines[1..];
    }
  }

  /** A reader of the output sees the lines, and then an empty rest, if and only
    * if no line has a newline; else it sees more lines.
    */
  lemma ReadLines(lines: seq<string>)
    ensures |Split(Unlines(lines), '\n')| >= |lines| + 1
    ensures |Split(Unlines(lines), '\n')| == |lines| + 1 <==> forall line <- lines :: '\n' !in line
    ensures |Split(Unlines(lines), '\n')| == |lines| + 1 ==> Split(Unlines(lines), '\n') == lines + [[]]
  {
    SplitCounts(Unlines(lines), '\n');
    NewlinesOfLines(lines);
    if forall line <- lines :: '\n' !in line {
      UnlinesSplit(lines);
    }
  }

  // ---------------------------------------------------------------------
  // Decimal numbers
  // ---------------------------------------------------------------------

  const U64_MAX: nat := 0xFFFF_FFFF_FFFF_FFFF

  predicate IsDigit(c: char) {
    '0' <= c <= '9'
  }

  function DigitChar(d: nat): (c: char)
    requires d < 10
    ensures IsDigit(c) && DigitValue(c) == d
  {
    '0' + d as char
  }

  function DigitValue(c: char): (d: nat)
    requires IsDigit(c)
    ensures d < 10
  {
    (c - '0') as int
  }

  /** The Display form of an unsigned integer. */
  function Decimal(n: nat): (s: string)
    ensures s != [] && forall c <- s :: IsDigit(c)
  {
    if n < 10 then [DigitChar(n)] else Decimal(n / 10) + [DigitChar(n % 10)]
  }

  /** The value of a non-empty text of digits. */
  function ReadDigits(s: string): Option<nat> {
    if s == [] || !IsDigit(Last(s)) then None
    else if |s| == 1 then Some(DigitValue(s[0]))
    else match ReadDigits(Front(s))
      case None => None
      case Some(n) => Some(10 * n + DigitValue(Last(s)))
  }

  lemma {:induction false} ReadDecimal(n: nat)
    ensures ReadDigits(Decimal(n)) == Some(n)
  {
    if n >= 10 {
      ReadDecimal(n / 10);
      assert Front(Decimal(n)) == Decimal(n / 10);
    }
  }

  /** str::parse::<u64>: an optional plus sign, digits, and a value in range. */
  function ParseU64(s: string): Option<nat> {
    match ReadDigits(if s != [] && s[0] == '+' then s[1..] else s)
    case None => None
    case Some(n) => if n <= U64_MAX then Some(n) else None
  }

  /** Exactly the non-empty texts of digits have a value. */
  lemma {:induction false} ReadDigitsAcceptsExactly(s: string)
    ensures ReadDigits(s).Some? <==> s != [] && forall c <- s :: IsDigit(c)
  {
    if |s| > 1 {
      ReadDigitsAcceptsExactly(Front(s));
      assert s == Front(s) + [Last(s)];
    }
  }

  /** What is accepted starts and ends visibly: with a digit or a plus sign, and with a digit. */
  lemma ParseU64Ends(s: string)
    requires ParseU64(s).Some?
    ensures s != [] && (IsDigit(s[0]) || s[0] == '+') && IsDigit(Last(s))
  {
    ReadDigitsAcceptsExactly(if s != [] && s[0] == '+' then s[1..] else s);
  }

  lemma ParseU64Decimal(n: nat)
    ensures ParseU64(Decimal(n)) == if n <= U64_MAX then Some(n) else None
  {
    ReadDecimal(n);
    assert IsDigit(Decimal(n)[0]);
  }

  /** The digits are those of base ten, most significant first. */
  lemma DecimalExactly(n: nat)
    ensures n < 10 ==> Decimal(n) == ["0123456789"[n]]
    ensures n >= 10 ==> Decimal(n) == Decimal(n / 10) + ["0123456789"[n % 10]]
  {
  }

  predicate Zeros(s: string) {
    forall i | 0 <= i < |s| :: s[i] == '0'
  }

  lemma {:induction false} ZerosVanish(zeros: string, s: string)
    requires Zeros(zeros) && s != []
    ensures ReadDigits(zeros + s) == ReadDigits(s)
    decreases |s|
  {
    if zeros == [] {
      assert zeros + s == s;
    } else {
      assert Last(zeros + s) == Last(s) && Front(zeros + s) == zeros + Front(s);
      if |s| > 1 {
        ZerosVanish(zeros, Front(s));
      } else {
        assert zeros + Front(s) == zeros;
        ZerosAreZero(zeros);
      }
    }
  }

  lemma {:induction false} ZerosAreZero(zeros: string)
    requires Zeros(zeros) && zeros != []
    ensures ReadDigits(zeros) == Some(0)
  {
    assert Last(zeros) == '0' && zeros[0] == '0';
    if |zeros| > 1 {
      ZerosAreZero(Front(zeros));
    }
  }

  lemma PlusIsIgnored(s: string)
    requires s != [] && s[0] != '+'
    ensures ParseU64("+" + s) == ParseU64(s)
  {
    assert ("+" + s)[1..] == s;
  }

  /** A plus sign and leading zeros do not matter; the limit is 2^64 - 1. */
  lemma ParseU64Exactly(zeros: string, n: nat)
    requires Zeros(zeros)
    ensures ParseU64(zeros + Decimal(n)) == if n <= 0xFFFF_FFFF_FFFF_FFFF then Some(n) else None
    ensures ParseU64("+" + (zeros + Decimal(n))) == ParseU64(zeros + Decimal(n))
  {
    var s := zeros + Decimal(n);
    ReadDecimal(n);
    ZerosVanish(zeros, Decimal(n));
    assert s[0] == if zeros == [] then Decimal(n)[0] else zeros[0];
    assert IsDigit(Decimal(n)[0]);
    PlusIsIgnored(s);
  }

  // ---------------------------------------------------------------------
  // White space
  // ---------------------------------------------------------------------

  /** char::is_whitespace: the Unicode White_Space property. */
  predicate IsWhitespace(c: char) {
    var u := c as int;
    || 0x09 <= u <= 0x0D || u == 0x20 || u == 0x85 || u == 0xA0 || u == 0x1680 || 0x2000 <= u <= 0x200A
    || u == 0x2028 || u == 0x2029 || u == 0x202F || u == 0x205F || u == 0x3000
  }

  lemma WhitespaceExactly(c: char)
    ensures IsWhitespace(c) <==>
      c as int in {0x09, 0x0A, 0x0B, 0x0C, 0x0D, 0x20, 0x85, 0xA0, 0x1680,
                   0x2000, 0x2001, 0x2002, 0x2003, 0x2004, 0x2005, 0x2006, 0x2007, 0x2008, 0x2009, 0x200A,
                   0x2028, 0x2029, 0x202F, 0x205F, 0x3000}
  {
  }

  predicate Blank(s: string) {
    forall c <- s :: IsWhitespace(c)
  }

  function TrimStart(s: string): string {
    if s != [] && IsWhitespace(s[0]) then TrimStart(s[1..]) else s
  }

  function TrimEnd(s: string): string {
    if s != [] && IsWhitespace(Last(s)) then TrimEnd(Front(s)) else s
  }

  function Trim(s: string): string {
    TrimEnd(TrimStart(s))
  }

  lemma {:induction false} TrimStartSkips(blank: string, s: string)
    requires Blank(blank) && (s == [] || !IsWhitespace(s[0]))
    ensures TrimStart(blank + s) == s
  {
    if blank != [] {
      TrimStartSkips(blank[1..], s);
      assert (blank + s)[1..] == blank[1..] + s;
    } else {
      assert blank + s == s;
    }
  }

  lemma {:induction false} TrimEndSkips(s: string, blank: string)
    requires Blank(blank) && (s == [] || !IsWhitespace(Last(s)))
    ensures TrimEnd(s + blank) == s
  {
    if blank != [] {
      TrimEndSkips(s, Front(blank));
      assert Front(s + blank) == s + Front(blank);
    } else {
      assert s + blank == s;
    }
  }

  /** Trimming at the end takes off white space only. */
  lemma {:induction false} TrimEndTakesBlank(s: string) returns (blank: string)
    ensures Blank(blank) && s == TrimEnd(s) + blank
    ensures TrimEnd(s) == [] || !IsWhitespace(Last(TrimEnd(s)))
  {
    blank := [];
    if s != [] && IsWhitespace(Last(s)) {
      blank := TrimEndTakesBlank(Front(s));
      blank := blank + [Last(s)];
      assert s == Front(s) + [Last(s)];
    }
  }

  lemma {:induction false} TrimStartIsVisible(s: string)
    ensures TrimStart(s) == [] || !IsWhitespace(TrimStart(s)[0])
  {
    if s != [] && IsWhitespace(s[0]) {
      TrimStartIsVisible(s[1..]);
    }
  }

  /** Just the blank texts are trimmed to nothing. */
  lemma BlankTrims(s: string)
    ensures Trim(s) == [] <==> Blank(s)
  {
    TrimStartOfBlank(s);
    var blank := TrimEndTakesBlank(TrimStart(s));
    TrimStartIsVisible(s);
    assert TrimStart(TrimStart(s)) == TrimStart(s);
    TrimStartOfBlank(TrimStart(s));
    assert Trim(s) == [] ==> TrimStart(s) == blank;
  }

  lemma {:induction false} TrimStartOfBlank(s: string)
    ensures TrimStart(s) == [] <==> Blank(s)
  {
    if s != [] {
      TrimStartOfBlank(s[1..]);
      assert s == [s[0]] + s[1..];
    }
  }

  /** A trimmed text starts visibly. */
  lemma TrimIsVisible(s: string)
    ensures Trim(s) == [] || !IsWhitespace(Trim(s)[0])
  {
    TrimStartIsVisible(s);
    var blank := TrimEndTakesBlank(TrimStart(s));
  }

  /** Trimming removes exactly the white space around a text that has none at its ends. */
  lemma TrimRemovesPadding(before: string, s: string, after: string)
    requires Blank(before) && Blank(after) && s != [] && !IsWhitespace(s[0]) && !IsWhitespace(Last(s))
    ensures Trim(before + s + after) == s
  {
    assert before + s + after == before + (s + after);
    TrimStartSkips(before, s + after);
    TrimEndSkips(s, after);
  }
}
