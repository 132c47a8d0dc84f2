/** Device addresses and their text form: src/mac_address.rs. */
module MacAddresses {
  import opened Common
  import opened Text

  type MacAddress = b: seq<byte> | |b| == 6 witness [0, 0, 0, 0, 0, 0]

  datatype ParseMacError =
    | InvalidLength(parts: nat)
    | InvalidPartLength(part: nat)
    | InvalidHex(text: string)

  // ---------------------------------------------------------------------
  // Hexadecimal bytes
  // ---------------------------------------------------------------------

  function HexChar(d: nat): char
    requires d < 16
  {
    if d < 10 then '0' + d as char else 'A' + (d - 10) as char
  }

  /** char::to_digit(16). */
  function HexValue(c: char): (d: Option<byte>)
    ensures d.Some? ==> d.value < 16
  {
    if '0' <= c <= '9' then Some((c - '0') as int)
    else if 'A' <= c <= 'F' then Some((c - 'A') as int + 10)
    else if 'a' <= c <= 'f' then Some((c - 'a') as int + 10)
    else None
  }

  /** The two-digit upper-case form of a byte. */
  function HexByte(b: byte): string {
    [HexChar(b / 16), HexChar(b % 16)]
  }

  /** u8::from_str_radix(_, 16) on a text of two bytes: two digits, or a plus sign and one. */
  function ParseHexByte(part: string): Option<byte> {
    if |part| != 2 then None
    else
      match (HexValue(part[0]), HexValue(part[1]))
      case (Some(hi), Some(lo)) => Some(16 * hi + lo)
      case (None, Some(lo)) => if part[0] == '+' then Some(lo) else None
      case _ => None
  }

  /** The length of a text in UTF-8 bytes, which is what str::len counts. */
  function Utf8Length(s: string): nat {
    if s == [] then 0 else Utf8Width(s[0]) + Utf8Length(s[1..])
  }

  function Utf8Width(c: char): nat {
    var u := c as int;
    if u < 0x80 then 1 else if u < 0x800 then 2 else if u < 0x10000 then 3 else 4
  }

  lemma Utf8LengthOfTwo(s: string)
    requires |s| == 2
    ensures Utf8Length(s) == Utf8Width(s[0]) + Utf8Width(s[1])
  {
    assert Utf8Length(s[1..]) == Utf8Width(s[1]) + Utf8Length(s[1..][1..]);
  }

  // ---------------------------------------------------------------------
  // Printing and parsing
  // ---------------------------------------------------------------------

  /** Display: six upper-case bytes between colons. */
  function Print(mac: MacAddress): string {
    HexByte(mac[0]) + ":" + HexByte(mac[1]) + ":" + HexByte(mac[2]) + ":" +
    HexByte(mac[3]) + ":" + HexByte(mac[4]) + ":" + HexByte(mac[5])
  }

  function ParsePart(part: string, i: nat): Result<byte, ParseMacError> {
    if Utf8Length(part) != 2 then Err(InvalidPartLength(i))
    else match ParseHexByte(part)
      case None => Err(InvalidHex(part))
      case Some(b) => Ok(b)
  }

  /** The bytes of the parts from number `i` on, or the first fault among them. */
  function ParseParts(parts: seq<string>, i: nat): (r: Result<seq<byte>, ParseMacError>)
    requires i <= |parts|
    ensures r.Ok? ==> |r.value| == |parts| - i
    decreases |parts| - i
  {
    if i == |parts| then Ok([])
    else match ParsePart(parts[i], i)
      case Err(e) => Err(e)
      case Ok(b) =>
        match ParseParts(parts, i + 1)
        case Err(e) => Err(e)
        case Ok(bs) => Ok([b] + bs)
  }

  /** What FromStr computes, as a function. */
  function Parse(s: string): Result<MacAddress, ParseMacError> {
    var parts := Split(s, ':');
    if |parts| != 6 then Err(InvalidLength(|parts|))
    else match ParseParts(parts, 0)
      case Err(e) => Err(e)
      case Ok(bs) => Ok(bs)
  }

  method FromStr(s: string) returns (r: Result<MacAddress, ParseMacError>)
    ensures r == Parse(s)
  {
    var parts := Split(s, ':');
    if |parts| != 6 {
      return Err(InvalidLength(|parts|));
    }
    var bytes := new byte[6](_ => 0);
    assert forall bs: seq<byte> :: bytes[..0] + bs == bs;
    for i := 0 to 6
      invariant match ParseParts(parts, i)
                case Err(e) => ParseParts(parts, 0) == Err(e)
                case Ok(bs) => ParseParts(parts, 0) == Ok(bytes[..i] + bs)
    {
      ghost var done := bytes[..i];
      if Utf8Length(parts[i]) != 2 {
        return Err(InvalidPartLength(i));
      }
      match ParseHexByte(parts[i]) {
        case None =>
          return Err(InvalidHex(parts[i]));
        case Some(b) =>
          bytes[i] := b;
          assert bytes[..i + 1] == done + [b];
          assert forall bs: seq<byte> :: done + ([b] + bs) == bytes[..i + 1] + bs;
      }
    }
    assert bytes[..6] + [] == bytes[..];
    return Ok(bytes[..]);
  }

  // ---------------------------------------------------------------------
  // What parsing accepts
  // ---------------------------------------------------------------------

  predicate IsHexDigit(c: char) {
    HexValue(c).Some?
  }

  /** Two hexadecimal digits, or a plus sign and one. */
  predicate IsPart(part: string) {
    |part| == 2 && (IsHexDigit(part[0]) || part[0] == '+') && IsHexDigit(part[1])
  }

  lemma PartAccepted(part: string, i: nat)
    ensures ParsePart(part, i).Ok? <==> IsPart(part)
  {
    if |part| == 2 {
      Utf8LengthOfTwo(part);
    }
  }

  lemma {:induction false} PartsAccepted(parts: seq<string>, i: nat)
    requires i <= |parts|
    ensures ParseParts(parts, i).Ok? <==> forall k | i <= k < |parts| :: IsPart(parts[k])
    ensures ParseParts(parts, i).Ok? ==>
      forall k | i <= k < |parts| :: ParsePart(parts[k], k) == Ok(ParseParts(parts, i).value[k - i])
    decreases |parts| - i
  {
    if i < |parts| {
      PartAccepted(parts[i], i);
      PartsAccepted(parts, i + 1);
    }
  }

  predicate SixParts(s: string, parts: seq<string>) {
    |parts| == 6 && (forall part <- parts :: IsPart(part)) && s == Join(parts, ':')
  }

  lemma SixPartsAreSplit(s: string, parts: seq<string>)
    requires SixParts(s, parts)
    ensures parts == Split(s, ':')
  {
    SplitJoin(parts, ':');
  }

  lemma SplitDecides(s: string)
    ensures Parse(s).Ok? <==> SixParts(s, Split(s, ':'))
  {
    JoinSplit(s, ':');
    if |Split(s, ':')| == 6 {
      PartsAccepted(Split(s, ':'), 0);
    }
  }

  /** A text is accepted exactly when it is six such parts joined by colons. */
  lemma AcceptsExactly(s: string)
    ensures Parse(s).Ok? <==> exists parts :: SixParts(s, parts)
  {
    SplitDecides(s);
    if parts: seq<string> :| SixParts(s, parts) {
      SixPartsAreSplit(s, parts);
    }
  }

  /** A rejection names the number of parts, or the first faulty part. */
  lemma {:induction false} FirstFault(parts: seq<string>, i: nat)
    requires i <= |parts| && ParseParts(parts, i).Err?
    ensures exists k | i <= k < |parts| ::
      (forall j | i <= j < k :: IsPart(parts[j])) && !IsPart(parts[k]) &&
      ParseParts(parts, i).error ==
        if Utf8Length(parts[k]) != 2 then InvalidPartLength(k) else InvalidHex(parts[k])
    decreases |parts| - i
  {
    PartAccepted(parts[i], i);
    if IsPart(parts[i]) {
      FirstFault(parts, i + 1);
    }
  }

  // ---------------------------------------------------------------------
  // Round trips
  // ---------------------------------------------------------------------

  /** Texts that differ only in the case of ASCII letters. */
  predicate SameButCase(s: string, t: string) {
    |s| == |t| && forall i | 0 <= i < |s| :: Lower(s[i]) == Lower(t[i])
  }

  function Lower(c: char): char {
    if 'A' <= c <= 'Z' then 'a' + (c - 'A') else c
  }

  lemma HexByteParses(b: byte, i: nat, part: string)
    requires SameButCase(part, HexByte(b))
    ensures ParsePart(part, i) == Ok(b)
    ensures ':' !in part
  {
    assert |part| == 2;
    assert Lower(part[0]) == Lower(HexByte(b)[0]) && Lower(part[1]) == Lower(HexByte(b)[1]);
    Utf8LengthOfTwo(part);
  }

  /** The parts of a printed address. */
  function PrintedParts(mac: MacAddress): seq<string> {
    seq(6, i requires 0 <= i < 6 => HexByte(mac[i]))
  }

  lemma PrintJoins(mac: MacAddress)
    ensures Print(mac) == Join(PrintedParts(mac), ':')
  {
    var p := PrintedParts(mac);
    assert p[1..][1..] == p[2..] && p[2..][1..] == p[3..] && p[3..][1..] == p[4..] && p[4..][1..] == p[5..];
    assert Join(p[4..], ':') == p[4] + ":" + p[5];
    assert Join(p[3..], ':') == p[3] + ":" + Join(p[4..], ':');
    assert Join(p[2..], ':') == p[2] + ":" + Join(p[3..], ':');
    assert Join(p[1..], ':') == p[1] + ":" + Join(p[2..], ':');
  }

  lemma CaseKeepsColons(s: string, t: string)
    requires SameButCase(s, t) && ':' !in t
    ensures ':' !in s
  {
  }

  lemma SliceIgnoresCase(s: string, t: string, lo: nat, hi: nat)
    requires SameButCase(s, t) && lo <= hi <= |s|
    ensures SameButCase(s[lo..hi], t[lo..hi])
  {
  }

  lemma CaseKeepsFirstColon(s: string, head: string, tail: string)
    requires SameButCase(s, head + [':'] + tail)
    ensures var n := |head|;
            s == s[..n] + [':'] + s[n + 1..] && SameButCase(s[..n], head) && SameButCase(s[n + 1..], tail)
  {
    var n, t := |head|, head + [':'] + tail;
    SliceIgnoresCase(s, t, 0, n);
    SliceIgnoresCase(s, t, n + 1, |s|);
    assert t[0..n] == head && t[n + 1..|s|] == tail && s[0..n] == s[..n] && s[n + 1..|s|] == s[n + 1..];
    assert Lower(s[n]) == Lower(t[n]) && t[n] == ':';
  }

  /** Case is irrelevant to where the colons are. */
  lemma {:induction false} SplitIgnoresCase(s: string, parts: seq<string>)
    requires parts != [] && (forall part <- parts :: ':' !in part)
    requires SameButCase(s, Join(parts, ':'))
    ensures |Split(s, ':')| == |parts|
    ensures forall i | 0 <= i < |parts| :: SameButCase(Split(s, ':')[i], parts[i])
  {
    if |parts| == 1 {
      CaseKeepsColons(s, parts[0]);
      SplitHead(s, ':', []);
    } else {
      var n := |parts[0]|;
      CaseKeepsFirstColon(s, parts[0], Join(parts[1..], ':'));
      CaseKeepsColons(s[..n], parts[0]);
      SplitHead(s[..n], ':', s[n + 1..]);
      SplitIgnoresCase(s[n + 1..], parts[1..]);
    }
  }

  lemma {:induction false} PrintedPartsParse(mac: MacAddress, parts: seq<string>, i: nat)
    requires |parts| == 6 && i <= 6
    requires forall k | 0 <= k < 6 :: SameButCase(parts[k], HexByte(mac[k]))
    ensures ParseParts(parts, i) == Ok(mac[i..])
    decreases 6 - i
  {
    if i < 6 {
      PrintedPartsParse(mac, parts, i + 1);
      HexByteParses(mac[i], i, parts[i]);
      assert mac[i..] == [mac[i]] + mac[i + 1..];
    }
  }

  /** Printing then parsing gives the address back, in whatever case it is typed. */
  lemma ParsePrinted(mac: MacAddress, s: string)
    requires SameButCase(s, Print(mac))
    ensures Parse(s) == Ok(mac)
  {
    var printed, parts := PrintedParts(mac), Split(s, ':');
    forall part | part in printed ensures ':' !in part {
      var i: nat :| i < 6 && part == HexByte(mac[i]);
      HexByteParses(mac[i], i, part);
    }
    PrintJoins(mac);
    SplitIgnoresCase(s, printed);
    assert forall k | 0 <= k < 6 :: printed[k] == HexByte(mac[k]);
    PrintedPartsParse(mac, parts, 0);
  }

  // ---------------------------------------------------------------------
  // Digits, written out
  // ---------------------------------------------------------------------

  lemma HexCharExactly(d: nat)
    requires d < 16
    ensures HexChar(d) == "0123456789ABCDEF"[d]
  {
  }

  /** Six texts of two characters between colons. */
  lemma BetweenColons(a: string, b: string, c: string, d: string, e: string, f: string)
    requires |a| == |b| == |c| == |d| == |e| == |f| == 2
    ensures var s := a + ":" + b + ":" + c + ":" + d + ":" + e + ":" + f;
            |s| == 17 && s[2] == s[5] == s[8] == s[11] == s[14] == ':' &&
            s[0] == a[0] && s[1] == a[1] && s[3] == b[0] && s[4] == b[1] && s[6] == c[0] && s[7] == c[1] &&
            s[9] == d[0] && s[10] == d[1] && s[12] == e[0] && s[13] == e[1] && s[15] == f[0] && s[16] == f[1]
  {
  }

  lemma PrintHas(mac: MacAddress, i: nat)
    requires i < 6
    ensures |Print(mac)| == 17 && (i < 5 ==> Print(mac)[3 * i + 2] == ':')
    ensures Print(mac)[3 * i] == HexChar(mac[i] / 16) && Print(mac)[3 * i + 1] == HexChar(mac[i] % 16)
  {
    BetweenColons(HexByte(mac[0]), HexByte(mac[1]), HexByte(mac[2]), HexByte(mac[3]), HexByte(mac[4]), HexByte(mac[5]));
  }

  /** A printed address has 17 characters: upper-case digits of each byte, high half first, and colons. */
  lemma PrintExactly(mac: MacAddress, i: nat)
    requires i < 6
    ensures |Print(mac)| == 17 && (i < 5 ==> Print(mac)[3 * i + 2] == ':')
    ensures Print(mac)[3 * i] == "0123456789ABCDEF"[mac[i] / 16]
    ensures Print(mac)[3 * i + 1] == "0123456789ABCDEF"[mac[i] % 16]
  {
    PrintHas(mac, i);
    HexCharExactly(mac[i] / 16);
    HexCharExactly(mac[i] % 16);
  }

  predicate IsDigitFor(c: char, d: nat) {
    d < 16 && (c == "0123456789abcdef"[d] || c == "0123456789ABCDEF"[d])
  }

  /** Two digits in any case, or a plus sign and one digit. */
  predicate IsPartFor(part: string, high: nat, low: nat) {
    |part| == 2 && IsDigitFor(part[1], low) && (IsDigitFor(part[0], high) || (part[0] == '+' && high == 0))
  }

  lemma HexValueExactly(c: char, d: nat)
    ensures HexValue(c) == Some(d) <==> IsDigitFor(c, d)
  {
  }

  lemma SameHalves(high: nat, low: nat, h: nat, l: nat)
    requires high < 16 && low < 16 && h < 16 && l < 16
    ensures 16 * high + low == 16 * h + l <==> high == h && low == l
  {
  }

  lemma PartExactly(part: string, i: nat, high: nat, low: nat)
    requires high < 16 && low < 16
    ensures ParsePart(part, i) == Ok(16 * high + low) <==> IsPartFor(part, high, low)
  {
    if |part| == 2 {
      Utf8LengthOfTwo(part);
      HexValueExactly(part[0], high);
      HexValueExactly(part[1], low);
      assert HexValue('+') == None;
      var h, l := HexValue(part[0]), HexValue(part[1]);
      if l.Some? {
        SameHalves(high, low, if h.Some? then h.value else 0, l.value);
      }
    }
  }

  predicate PartMeans(part: string, b: byte) {
    IsPartFor(part, b / 16, b % 16)
  }

  lemma PartMeansExactly(part: string, i: nat, b: byte)
    ensures ParsePart(part, i) == Ok(b) <==> PartMeans(part, b)
  {
    assert b / 16 < 16 && b == 16 * (b / 16) + b % 16;
    PartExactly(part, i, b / 16, b % 16);
  }

  /** `parts` are six such parts that mean the bytes of `mac` in order. */
  predicate PartsMean(parts: seq<string>, mac: MacAddress) {
    |parts| == 6 && forall i: nat | i < 6 :: PartMeans(parts[i], mac[i])
  }

  lemma MeantIsParsed(parts: seq<string>, mac: MacAddress)
    requires PartsMean(parts, mac)
    ensures ParseParts(parts, 0) == Ok(mac)
  {
    forall i: nat | i < 6 ensures ParsePart(parts[i], i) == Ok(mac[i]) && IsPart(parts[i]) {
      assert PartMeans(parts[i], mac[i]);
      PartMeansExactly(parts[i], i, mac[i]);
      PartAccepted(parts[i], i);
    }
    PartsAccepted(parts, 0);
    var bytes := ParseParts(parts, 0).value;
    forall i: nat | i < 6 ensures bytes[i] == mac[i] {
      assert ParsePart(parts[i], i) == Ok(bytes[i - 0]);
    }
    assert bytes == mac;
  }

  lemma ParsedIsMeant(parts: seq<string>, mac: MacAddress)
    requires |parts| == 6 && ParseParts(parts, 0) == Ok(mac)
    ensures PartsMean(parts, mac)
  {
    PartsAccepted(parts, 0);
    forall i: nat | i < 6 ensures PartMeans(parts[i], mac[i]) {
      assert ParsePart(parts[i], i) == Ok(ParseParts(parts, 0).value[i - 0]);
      PartMeansExactly(parts[i], i, mac[i]);
    }
  }

  /** Which address a text means: that of its six parts between colons. */
  lemma ParsesExactly(s: string, mac: MacAddress)
    ensures Parse(s) == Ok(mac) <==> exists parts :: PartsMean(parts, mac) && s == Join(parts, ':')
  {
    JoinSplit(s, ':');
    if Parse(s) == Ok(mac) {
      ParsedIsMeant(Split(s, ':'), mac);
    }
    if parts :| PartsMean(parts, mac) && s == Join(parts, ':') {
      MeantIsParsed(parts, mac);
      PartsLackColon(parts, mac);
      SplitJoin(parts, ':');
    }
  }

  lemma PartsLackColon(parts: seq<string>, mac: MacAddress)
    requires PartsMean(parts, mac)
    ensures forall part <- parts :: ':' !in part
  {
    forall i: nat | i < 6 ensures ':' !in parts[i] {
      assert PartMeans(parts[i], mac[i]);
    }
  }

  /** A text with other than five colons is refused for their number. */
  lemma WrongNumberExactly(s: string, n: nat)
    ensures Parse(s) == Err(InvalidLength(n)) <==> n == Count(s, ':') + 1 != 6
  {
    SplitCounts(s, ':');
    var parts := Split(s, ':');
    if |parts| == 6 && ParseParts(parts, 0).Err? {
      FirstFault(parts, 0);
    }
  }

  lemma {:induction false} Utf8LengthAtLeast(s: string)
    ensures Utf8Length(s) >= |s|
  {
    if s != [] {
      Utf8LengthAtLeast(s[1..]);
    }
  }

  /** A part is as long as its UTF-8 bytes: one character of two bytes has the right length and wrong digits. */
  lemma PartFaultExactly(part: string, i: nat)
    ensures ParsePart(part, i) == Err(InvalidHex(part)) <==>
      (|part| == 2 && part[0] as int < 0x80 && part[1] as int < 0x80 && !IsPart(part)) ||
      (|part| == 1 && 0x80 <= part[0] as int < 0x800)
    ensures ParsePart(part, i).Err? ==>
      ParsePart(part, i) == Err(InvalidHex(part)) || ParsePart(part, i) == Err(InvalidPartLength(i))
  {
    PartAccepted(part, i);
    Utf8LengthAtLeast(part);
    if |part| == 2 {
      Utf8LengthOfTwo(part);
    } else if |part| == 1 {
      assert Utf8Length(part) == Utf8Width(part[0]) + Utf8Length(part[1..]) && part[1..] == [];
    }
  }
}
