/** Human-readable names for devices: src/alias.rs. */
module Aliases {
  import opened Common
  import opened MacAddresses

  datatype Alias = Alias(address: MacAddress, name: string)

  datatype AliasError = MissingEquals | BadAddress(error: ParseMacError)

  /** str::split_once: the texts before and after the first separator. */
  function SplitOnce(s: string, separator: char): Option<(string, string)> {
    if s == [] then None
    else if s[0] == separator then Some(([], s[1..]))
    else match SplitOnce(s[1..], separator)
      case None => None
      case Some((before, after)) => Some(([s[0]] + before, after))
  }

  function ParseAlias(src: string): Result<Alias, AliasError> {
    match SplitOnce(src, '=')
    case None => Err(MissingEquals)
    case Some((address, name)) =>
      match Parse(address)
      case Err(e) => Err(BadAddress(e))
      case Ok(mac) => Ok(Alias(mac, name))
  }

  /** Collecting into a map: a later pair replaces an earlier one. */
  function ToMap(aliases: seq<Alias>): map<MacAddress, string> {
    if aliases == [] then map[] else ToMap(Front(aliases))[Last(aliases).address := Last(aliases).name]
  }

  function ResolveName(mac: MacAddress, aliases: map<MacAddress, string>): string {
    if mac in aliases then aliases[mac] else Print(mac)
  }

  /** The separator found is the first one. */
  lemma {:induction false} SplitOnceAtFirst(before: string, separator: char, after: string)
    requires separator !in before
    ensures SplitOnce(before + [separator] + after, separator) == Some((before, after))
  {
    if before == [] {
      assert before + [separator] + after == [separator] + after;
    } else {
      SplitOnceAtFirst(before[1..], separator, after);
      assert (before + [separator] + after)[1..] == before[1..] + [separator] + after;
      assert [before[0]] + before[1..] == before;
    }
  }

  lemma {:induction false} SplitOnceLossless(s: string, separator: char)
    ensures match SplitOnce(s, separator)
            case None => separator !in s
            case Some((before, after)) => separator !in before && s == before + [separator] + after
  {
    if s != [] {
      SplitOnceLossless(s[1..], separator);
    }
  }

  /** An alias for an address, typed in any case, is read back with its whole
    * name, even if the name has equals signs.
    */
  lemma AliasRoundTrip(mac: MacAddress, address: string, name: string)
    requires SameButCase(address, Print(mac))
    ensures ParseAlias(address + "=" + name) == Ok(Alias(mac, name))
  {
    forall i | 0 <= i < |address| ensures address[i] != '=' {
      assert Lower(address[i]) == Lower(Print(mac)[i]);
    }
    SplitOnceAtFirst(address, '=', name);
    ParsePrinted(mac, address);
  }

  /** Only an accepted address followed by an equals sign makes an alias. */
  lemma AliasAcceptsExactly(src: string)
    ensures ParseAlias(src).Ok? <==>
      exists n | 0 <= n < |src| :: src[n] == '=' && '=' !in src[..n] && Parse(src[..n]).Ok?
    ensures ParseAlias(src) == Err(MissingEquals) <==> '=' !in src
  {
    SplitOnceLossless(src, '=');
    match SplitOnce(src, '=')
    case None =>
    case Some((before, after)) =>
      assert src[..|before|] == before && src[|before|] == '=';
      assert forall n | |before| < n <= |src| :: src[..n][|before|] == '=';
      assert forall n | 0 <= n < |before| :: src[n] == before[n];
  }

  /** What an accepted text means: the address before the first equals sign, and all the text after it as the name. */
  lemma AliasExactly(src: string, mac: MacAddress, name: string)
    ensures ParseAlias(src) == Ok(Alias(mac, name)) <==>
      exists n | 0 <= n < |src| ::
        src[n] == '=' && '=' !in src[..n] && Parse(src[..n]) == Ok(mac) && name == src[n + 1..]
  {
    SplitOnceLossless(src, '=');
    match SplitOnce(src, '=')
    case None =>
    case Some((before, after)) =>
      FirstIndex(src, '=', before, after);
  }

  /** A fault of the address is passed on. */
  lemma AliasFaultExactly(src: string, error: ParseMacError)
    ensures ParseAlias(src) == Err(BadAddress(error)) <==>
      exists n | 0 <= n < |src| :: src[n] == '=' && '=' !in src[..n] && Parse(src[..n]) == Err(error)
  {
    SplitOnceLossless(src, '=');
    match SplitOnce(src, '=')
    case None =>
    case Some((before, after)) =>
      FirstIndex(src, '=', before, after);
  }

  lemma FirstIndex(src: string, separator: char, before: string, after: string)
    requires separator !in before && src == before + [separator] + after
    ensures src[|before|] == separator && src[..|before|] == before && src[|before| + 1..] == after
    ensures forall n | 0 <= n < |src| && src[n] == separator && separator !in src[..n] :: n == |before|
  {
    forall n | |before| < n < |src| ensures separator in src[..n] {
      assert src[..n][|before|] == separator;
    }
    forall n | 0 <= n < |before| ensures src[n] != separator {
      assert src[n] == before[n];
    }
  }

  /** Alias `i` is the last one given for `mac`. */
  predicate IsLastFor(aliases: seq<Alias>, i: nat, mac: MacAddress)
    requires i < |aliases|
  {
    aliases[i].address == mac && forall j | i < j < |aliases| :: aliases[j].address != mac
  }

  /** A device goes by the name of the last alias given for it, else by its address. */
  lemma {:induction false} LastAliasWins(aliases: seq<Alias>, mac: MacAddress)
    ensures mac in ToMap(aliases) <==> exists alias <- aliases :: alias.address == mac
    ensures mac in ToMap(aliases) ==>
      exists i: nat | i < |aliases| :: IsLastFor(aliases, i, mac) && ResolveName(mac, ToMap(aliases)) == aliases[i].name
    ensures mac !in ToMap(aliases) ==> ResolveName(mac, ToMap(aliases)) == Print(mac)
  {
    if aliases != [] {
      var before := Front(aliases);
      LastAliasWins(before, mac);
      assert aliases == before + [Last(aliases)];
      if Last(aliases).address == mac {
        assert IsLastFor(aliases, |aliases| - 1, mac);
      } else if mac in ToMap(before) {
        var i: nat :| i < |before| && IsLastFor(before, i, mac) && ResolveName(mac, ToMap(before)) == before[i].name;
        assert IsLastFor(aliases, i, mac);
      }
    }
  }
}
