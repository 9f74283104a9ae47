/** Which hops of a forwarding chain are proxies this deployment trusts:
    user-supplied patterns, six fixed address ranges, and the names of the
    local host and of Unix domain sockets. */
module TrustedProxies {
  import opened Wrappers
  import opened NetIP
  import opened Strings

  /** A compiled regexp.Regexp: the text it was compiled from and its
      MatchString, which is unanchored and left opaque here. */
  datatype Regexp = Regexp(source: string, matchString: string -> bool)

  /** regexp.Compile: None when the text does not compile. */
  type Compiler = string -> Option<string -> bool>

  /** net.ParseIP: None when the text is not an address. */
  type IPParser = string -> Option<IP>

  // ---------------------------------------------------------------------
  // IpBetween
  // ---------------------------------------------------------------------

  /** Whether test lies between from and to, both ends included, once all
      three are brought to their 16-byte form; false when any of them is nil
      or has no 16-byte form. The order is that of the 128-bit numbers. */
  function IpBetween(from: Option<IP>, to: Option<IP>, test: Option<IP>): (r: bool)
    ensures r <==> from.Some? && to.Some? && test.Some?
                   && To16(from.value).Some? && To16(to.value).Some? && To16(test.value).Some?
                   && Value(To16(from.value).value) <= Value(To16(test.value).value)
                   && Value(To16(test.value).value) <= Value(To16(to.value).value)
  {
    if from.None? || to.None? || test.None? then false
    else
      var from16, to16, test16 := To16(from.value), To16(to.value), To16(test.value);
      if from16.None? || to16.None? || test16.None? then false
      else
        CompareIsNumeric(test16.value, from16.value);
        CompareIsNumeric(test16.value, to16.value);
        Compare(test16.value, from16.value) >= 0 && Compare(test16.value, to16.value) <= 0
  }

  /** A one-address range holds exactly that address, and a range whose
      lower end sorts after its upper end (by bytes.Compare) holds nothing. */
  lemma IpBetweenBounds(from: IP, to: IP, test: Option<IP>)
    requires |from| == 16 && |to| == 16
    ensures IpBetween(Some(from), Some(from), test) <==> test.Some? && To16(test.value) == Some(from)
    ensures Compare(from, to) > 0 ==> !IpBetween(Some(from), Some(to), test)
  {
    CompareIsNumeric(from, to);
    if test.Some? && To16(test.value).Some? {
      var t := To16(test.value).value;
      CompareIsNumeric(t, from);
    }
  }

  /** On 16-byte addresses, IpBetween is the pair of bytes.Compare tests. */
  lemma IpBetweenByCompare(lo: IP, hi: IP, a: IP)
    requires |lo| == 16 && |hi| == 16 && |a| == 16
    ensures IpBetween(Some(lo), Some(hi), Some(a)) <==> Compare(a, lo) >= 0 && Compare(a, hi) <= 0
  {
    CompareIsNumeric(a, lo);
    CompareIsNumeric(a, hi);
  }

  /** A range from p.l.0...0 to p.h.ff...ff holds exactly the strings that
      start with p and whose next byte lies in [l, h]. */
  lemma BetweenBlock(p: seq<Byte>, l: Byte, h: Byte, k: nat, a: seq<Byte>)
    requires |a| == |p| + 1 + k
    ensures (Compare(a, p + [l] + Fill(k, 0)) >= 0 && Compare(a, p + [h] + Fill(k, 0xff)) <= 0)
            <==> (a[..|p|] == p && l <= a[|p|] <= h)
  {
    var n := |p|;
    var a1, c, a2 := a[..n], a[n], a[n + 1..];
    assert a == a1 + ([c] + a2);
    assert p + [l] + Fill(k, 0) == p + ([l] + Fill(k, 0));
    assert p + [h] + Fill(k, 0xff) == p + ([h] + Fill(k, 0xff));
    CompareAppend(a1, [c] + a2, p, [l] + Fill(k, 0));
    CompareAppend(a1, [c] + a2, p, [h] + Fill(k, 0xff));
    if a1 == p {
      CompareAppend([c], a2, [l], Fill(k, 0));
      CompareAppend([c], a2, [h], Fill(k, 0xff));
      CompareWithFill(a2);
    }
  }

  // ---------------------------------------------------------------------
  // The fixed ranges
  // ---------------------------------------------------------------------

  /** A closed interval of addresses. */
  datatype AddressRange = AddressRange(from: IP, to: IP)

  /** ::1 */
  const Loopback6: IP := Fill(15, 0) + [1]
  /** fc00:: */
  const UniqueLocalFirst: IP := [0xfc] + Fill(15, 0)
  /** fdff:ffff:ffff:ffff:ffff:ffff:ffff:ffff */
  const UniqueLocalLast: IP := [0xfd] + Fill(15, 0xff)

  /** The ranges isTrustedProxy tests, in its order: IPv4 loopback, IPv6
      loopback, IPv6 unique local addresses, and the three IPv4 private blocks. */
  const TrustedRanges: seq<AddressRange> := [
    AddressRange(IPv4(127, 0, 0, 0), IPv4(127, 255, 255, 255)),
    AddressRange(Loopback6, Loopback6),
    AddressRange(UniqueLocalFirst, UniqueLocalLast),
    AddressRange(IPv4(10, 0, 0, 0), IPv4(10, 255, 255, 255)),
    AddressRange(IPv4(172, 16, 0, 0), IPv4(172, 31, 255, 255)),
    AddressRange(IPv4(192, 168, 0, 0), IPv4(192, 168, 255, 255))
  ]

  /** The chain of IpBetween tests, first hit wins. */
  function InAnyRange(ranges: seq<AddressRange>, ip: IP): (r: bool)
    ensures r <==> exists i :: 0 <= i < |ranges| && IpBetween(Some(ranges[i].from), Some(ranges[i].to), Some(ip))
  {
    if ranges == [] then false
    else
      assert forall i :: 1 <= i < |ranges| ==> ranges[i] == ranges[1..][i - 1];
      IpBetween(Some(ranges[0].from), Some(ranges[0].to), Some(ip)) || InAnyRange(ranges[1..], ip)
  }

  // ---------------------------------------------------------------------
  // The same ranges as the address blocks the RFCs define
  // ---------------------------------------------------------------------

  /** A block of 16-byte addresses: those whose first prefixLen bits are the network's. */
  datatype Cidr = Cidr(network: IP, prefixLen: nat)

  function Pow2(k: nat): (p: nat)
    ensures p >= 1
  {
    if k == 0 then 1 else 2 * Pow2(k - 1)
  }

  predicate InCidr(a: IP, block: Cidr)
  {
    var full, rem := block.prefixLen / 8, block.prefixLen % 8;
    |a| == 16 && |block.network| == 16 && block.prefixLen <= 128
    && a[..full] == block.network[..full]
    && (rem == 0 || a[full] / Pow2(8 - rem) == block.network[full] / Pow2(8 - rem))
  }

  /** 127.0.0.0/8 (RFC 3330), ::1/128 (section 2.5.3 of RFC 4291),
      fc00::/7 (section 3.1 of RFC 4193), and 10.0.0.0/8, 172.16.0.0/12 and
      192.168.0.0/16 (section 3 of RFC 1918); IPv4 blocks in their mapped form,
      96 bits longer. */
  const TrustedBlocks: seq<Cidr> := [
    Cidr(IPv4(127, 0, 0, 0), 104),
    Cidr(Loopback6, 128),
    Cidr(UniqueLocalFirst, 7),
    Cidr(IPv4(10, 0, 0, 0), 104),
    Cidr(IPv4(172, 16, 0, 0), 108),
    Cidr(IPv4(192, 168, 0, 0), 112)
  ]

  predicate InTrustedBlock(a: IP)
  {
    exists i :: 0 <= i < |TrustedBlocks| && InCidr(a, TrustedBlocks[i])
  }

  /** Block i of the table, as a test on the bytes of a 16-byte address. */
  predicate BlockShape(i: nat, a: IP)
    requires |a| == 16
  {
    match i
    case 0 => a[..12] == V4InV6Prefix && a[12] == 127
    case 1 => a[..15] == Fill(15, 0) && a[15] == 1
    case 2 => 0xfc <= a[0] <= 0xfd
    case 3 => a[..12] == V4InV6Prefix && a[12] == 10
    case 4 => a[..12] == V4InV6Prefix && a[12] == 172 && 16 <= a[13] <= 31
    case 5 => a[..12] == V4InV6Prefix && a[12] == 192 && a[13] == 168
    case _ => false
  }

  /** An IPv4 range x.l.0.0 - x.h.255.255, in mapped form. */
  lemma V4RangeShape(x: Byte, l: Byte, h: Byte, a: IP)
    requires |a| == 16
    ensures (Compare(a, IPv4(x, l, 0, 0)) >= 0 && Compare(a, IPv4(x, h, 255, 255)) <= 0)
            <==> (a[..12] == V4InV6Prefix && a[12] == x && l <= a[13] <= h)
  {
    var p := V4InV6Prefix + [x];
    assert IPv4(x, l, 0, 0) == p + [l] + Fill(2, 0);
    assert IPv4(x, h, 255, 255) == p + [h] + Fill(2, 0xff);
    BetweenBlock(p, l, h, 2, a);
    assert a[..13] == a[..12] + [a[12]];
  }

  lemma RangeShape(i: nat, a: IP)
    requires i < 6 && |a| == 16
    ensures IpBetween(Some(TrustedRanges[i].from), Some(TrustedRanges[i].to), Some(a)) <==> BlockShape(i, a)
  {
    var lo, hi := TrustedRanges[i].from, TrustedRanges[i].to;
    IpBetweenByCompare(lo, hi, a);
    if i == 0 {
      V4RangeShape(127, 0, 255, a);
    } else if i == 1 {
      Loopback6Shape(a);
    } else if i == 2 {
      UniqueLocalShape(a);
    } else if i == 3 {
      V4RangeShape(10, 0, 255, a);
    } else if i == 4 {
      V4RangeShape(172, 16, 31, a);
    } else {
      V4RangeShape(192, 168, 168, a);
    }
  }

  lemma Loopback6Shape(a: IP)
    requires |a| == 16
    ensures (Compare(a, Loopback6) >= 0 && Compare(a, Loopback6) <= 0) <==> (a[..15] == Fill(15, 0) && a[15] == 1)
  {
    assert Fill(0, 0) == [] && Fill(0, 0xff) == [];
    assert Loopback6 + [] == Loopback6;
    BetweenBlock(Fill(15, 0), 1, 1, 0, a);
  }

  lemma UniqueLocalShape(a: IP)
    requires |a| == 16
    ensures (Compare(a, UniqueLocalFirst) >= 0 && Compare(a, UniqueLocalLast) <= 0) <==> 0xfc <= a[0] <= 0xfd
  {
    assert [] + [0xfc] == [0xfc] && [] + [0xfd] == [0xfd];
    BetweenBlock([], 0xfc, 0xfd, 15, a);
  }

  lemma BlockShapeOfCidr(i: nat, a: IP)
    requires i < 6 && |a| == 16
    ensures InCidr(a, TrustedBlocks[i]) <==> BlockShape(i, a)
  {
    if i == 0 {
      V4OctetCidr(127, a);
    } else if i == 1 {
      LoopbackCidr(a);
    } else if i == 2 {
      UniqueLocalCidr(a);
    } else if i == 3 {
      V4OctetCidr(10, a);
    } else if i == 4 {
      PrivateTwelveCidr(a);
    } else {
      PrivateSixteenCidr(a);
    }
  }

  /** x.0.0.0/8, in mapped form a /104. */
  lemma V4OctetCidr(x: Byte, a: IP)
    requires |a| == 16
    ensures InCidr(a, Cidr(IPv4(x, 0, 0, 0), 104)) <==> a[..12] == V4InV6Prefix && a[12] == x
  {
    assert a[..13] == a[..12] + [a[12]];
    assert IPv4(x, 0, 0, 0)[..13] == V4InV6Prefix + [x];
  }

  lemma LoopbackCidr(a: IP)
    requires |a| == 16
    ensures InCidr(a, Cidr(Loopback6, 128)) <==> a[..15] == Fill(15, 0) && a[15] == 1
  {
    assert a[..16] == a && a == a[..15] + [a[15]];
  }

  lemma UniqueLocalCidr(a: IP)
    requires |a| == 16
    ensures InCidr(a, Cidr(UniqueLocalFirst, 7)) <==> 0xfc <= a[0] <= 0xfd
  {
    assert Pow2(1) == 2;
  }

  /** 172.16.0.0/12, in mapped form a /108. */
  lemma PrivateTwelveCidr(a: IP)
    requires |a| == 16
    ensures InCidr(a, Cidr(IPv4(172, 16, 0, 0), 108))
            <==> a[..12] == V4InV6Prefix && a[12] == 172 && 16 <= a[13] <= 31
  {
    assert Pow2(4) == 16;
    assert a[..13] == a[..12] + [a[12]];
    assert IPv4(172, 16, 0, 0)[..13] == V4InV6Prefix + [172];
  }

  /** 192.168.0.0/16, in mapped form a /112. */
  lemma PrivateSixteenCidr(a: IP)
    requires |a| == 16
    ensures InCidr(a, Cidr(IPv4(192, 168, 0, 0), 112))
            <==> a[..12] == V4InV6Prefix && a[12] == 192 && a[13] == 168
  {
    assert a[..14] == a[..12] + [a[12], a[13]];
    assert IPv4(192, 168, 0, 0)[..14] == V4InV6Prefix + [192, 168];
  }

  /** The six IpBetween tests accept exactly the six RFC address blocks. */
  lemma TrustedRangesAreBlocks(a: IP)
    requires |a| == 16
    ensures InAnyRange(TrustedRanges, a) <==> InTrustedBlock(a)
  {
    forall i | 0 <= i < 6
      ensures IpBetween(Some(TrustedRanges[i].from), Some(TrustedRanges[i].to), Some(a))
              <==> InCidr(a, TrustedBlocks[i])
    {
      RangeShape(i, a);
      BlockShapeOfCidr(i, a);
    }
  }

  /** No address lies in two of the blocks, so the order of the tests does not matter. */
  lemma TrustedBlocksDisjoint(a: IP, i: nat, j: nat)
    requires |a| == 16 && i < 6 && j < 6 && i != j
    ensures !(InCidr(a, TrustedBlocks[i]) && InCidr(a, TrustedBlocks[j]))
  {
    BlockShapeOfCidr(i, a);
    BlockShapeOfCidr(j, a);
    assert a[..12][0] == a[0] && a[..12][10] == a[10];
    assert a[..15][0] == a[0] && a[..15][10] == a[10];
  }

  /** The same, for the table of ranges that isTrustedProxy walks. */
  lemma TrustedRangesDisjoint(a: IP, i: nat, j: nat)
    requires |a| == 16 && i < 6 && j < 6 && i != j
    ensures !(IpBetween(Some(TrustedRanges[i].from), Some(TrustedRanges[i].to), Some(a))
              && IpBetween(Some(TrustedRanges[j].from), Some(TrustedRanges[j].to), Some(a)))
  {
    RangeShape(i, a);
    RangeShape(j, a);
    BlockShapeOfCidr(i, a);
    BlockShapeOfCidr(j, a);
    TrustedBlocksDisjoint(a, i, j);
  }

  /** An address is in a fixed range when its 16-byte form is in one of the blocks. */
  predicate TrustedAddress(ip: IP)
  {
    To16(ip).Some? && InTrustedBlock(To16(ip).value)
  }

  lemma RangesSeeNormalForm(ip: IP)
    ensures InAnyRange(TrustedRanges, ip) <==> TrustedAddress(ip)
  {
    if To16(ip).Some? {
      var t := To16(ip).value;
      forall i | 0 <= i < |TrustedRanges|
        ensures IpBetween(Some(TrustedRanges[i].from), Some(TrustedRanges[i].to), Some(ip))
                <==> IpBetween(Some(TrustedRanges[i].from), Some(TrustedRanges[i].to), Some(t))
      {
        To16Idempotent(ip);
      }
      TrustedRangesAreBlocks(t);
    }
  }

  // ---------------------------------------------------------------------
  // isTrustedProxy
  // ---------------------------------------------------------------------

  /** The loop over the custom matchers: true at the first that accepts. */
  function MatchesAny(regexes: seq<Regexp>, candidate: string): (r: bool)
    ensures r <==> exists i :: 0 <= i < |regexes| && regexes[i].matchString(candidate)
  {
    if regexes == [] then false
    else
      assert forall i :: 1 <= i < |regexes| ==> regexes[i] == regexes[1..][i - 1];
      regexes[0].matchString(candidate) || MatchesAny(regexes[1..], candidate)
  }

  /** The name checks, on the lower-cased candidate: "localhost", "unix", or
      "unix:" with something after it. Lower-casing keeps the number of
      characters, so "something after it" is the byte-length test of the source. */
  predicate TrustedName(candidate: string)
  {
    var normalized := ToLower(candidate);
    normalized == "localhost" || normalized == "unix" || (HasPrefix(normalized, "unix:") && |normalized| > 5)
  }

  /** isTrustedProxy: a custom matcher accepts the candidate, or it parses as
      an address in one of the six blocks, or it names the local host or a
      Unix socket. An unparseable candidate only skips the address test. */
  function IsTrustedProxy(candidate: string, customRegexes: seq<Regexp>, parseIP: IPParser): (r: bool)
    ensures MatchesAny(customRegexes, candidate) ==> r
    ensures r <==> MatchesAny(customRegexes, candidate)
                   || (parseIP(candidate).Some? && TrustedAddress(parseIP(candidate).value))
                   || TrustedName(candidate)
  {
    if MatchesAny(customRegexes, candidate) then true
    else
      var reqIp := parseIP(candidate);
      if reqIp.Some? then
        RangesSeeNormalForm(reqIp.value);
        if InAnyRange(TrustedRanges, reqIp.value) then true else TrustedName(candidate)
      else
        TrustedName(candidate)
  }

  /** More matchers, before or after the others, never make a trusted
      candidate untrusted. */
  lemma MoreMatchersNeverUntrust(candidate: string, regexes: seq<Regexp>, extra: seq<Regexp>, parseIP: IPParser)
    requires IsTrustedProxy(candidate, regexes, parseIP)
    ensures IsTrustedProxy(candidate, regexes + extra, parseIP)
    ensures IsTrustedProxy(candidate, extra + regexes, parseIP)
  {
    if MatchesAny(regexes, candidate) {
      var i :| 0 <= i < |regexes| && regexes[i].matchString(candidate);
      assert (regexes + extra)[i] == regexes[i];
      assert (extra + regexes)[|extra| + i] == regexes[i];
    }
  }

  /** "unix:" is trusted only with a suffix, whatever the suffix. */
  lemma UnixSocketNames(suffix: string)
    ensures TrustedName("unix:" + suffix) <==> suffix != []
    ensures TrustedName("UNIX:" + suffix) <==> suffix != []
  {
    var s1, s2 := "unix:" + suffix, "UNIX:" + suffix;
    assert ToLower(s1)[..5] == "unix:";
    assert ToLower(s2)[..5] == "unix:";
    if suffix == [] {
      assert ToLower(s1) == "unix:" && ToLower(s2) == "unix:";
    }
  }

  /** The trusted name cases of the test table. */
  /** The name test ignores case: folding the candidate first changes nothing. */
  lemma TrustedNameIgnoresCase(candidate: string)
    ensures TrustedName(ToLower(candidate)) <==> TrustedName(candidate)
  {
    ToLowerIdempotent(candidate);
  }

  /** Every spelling of "localhost" that mixes lower and upper case letters is trusted. */
  lemma LocalhostAnyCase(s: string)
    requires |s| == 9
    requires forall i :: 0 <= i < 9 ==> s[i] == "localhost"[i] || s[i] == "LOCALHOST"[i]
    ensures TrustedName(s)
  {
    forall i | 0 <= i < 9
      ensures ToLower(s)[i] == "localhost"[i]
    {
      assert LowerRune("LOCALHOST"[i]) == "localhost"[i];
    }
    assert ToLower(s) == "localhost";
  }

  /** Every spelling of "unix" that mixes lower and upper case letters is trusted. */
  lemma UnixAnyCase(s: string)
    requires |s| == 4
    requires forall i :: 0 <= i < 4 ==> s[i] == "unix"[i] || s[i] == "UNIX"[i]
    ensures TrustedName(s)
  {
    forall i | 0 <= i < 4
      ensures ToLower(s)[i] == "unix"[i]
    {
      assert LowerRune("UNIX"[i]) == "unix"[i];
    }
    assert ToLower(s) == "unix";
  }

  lemma TrustedNameExamples()
    ensures TrustedName("localhost") && TrustedName("LOCALHOST") && TrustedName("LoCaLhOsT")
    ensures TrustedName("unix") && TrustedName("unix:/path/to/socket")
  {
    assert ToLower("LOCALHOST") == "localhost";
    assert ToLower("LoCaLhOsT") == "localhost";
    assert ToLower("localhost") == "localhost";
    assert ToLower("unix") == "unix";
    UnixSocketNames("/path/to/socket");
  }

  /** The untrusted name cases of the test table: names that only contain
      or extend "localhost", "unix:" with nothing after it, and the empty string. */
  lemma UntrustedNameExamples()
    ensures !TrustedName("notlocalhost") && !TrustedName("localhosttryingtotrickyou")
    ensures !TrustedName("unix:") && !TrustedName("bleair") && !TrustedName("")
  {
    UnixSocketNames("");
    assert "unix:" + "" == "unix:";
    assert ToLower("notlocalhost")[0] == 'n';
    var n := ToLower("localhosttryingtotrickyou");
    assert n[9] == 't' && n[..5][0] == 'l';
    assert ToLower("bleair")[0] == 'b';
  }

  /** For an IPv4 address, the fixed ranges are 127/8, 10/8, 172.16/12 and 192.168/16. */
  lemma TrustedIPv4(x: Byte, y: Byte, z: Byte, w: Byte)
    ensures TrustedAddress(IPv4(x, y, z, w))
            <==> x == 127 || x == 10 || (x == 172 && 16 <= y <= 31) || (x == 192 && y == 168)
  {
    var a := IPv4(x, y, z, w);
    assert a[..12] == V4InV6Prefix && a[12] == x && a[13] == y;
    assert To16(a) == Some(a);
    assert !BlockShape(1, a) by { assert a[..15][10] == 0xff && Fill(15, 0)[10] == 0; }
    assert !BlockShape(2, a) by { assert a[0] == 0; }
    ShapeDecidesBlock(a);
    if x == 127 {
      assert BlockShape(0, a);
    } else if x == 10 {
      assert BlockShape(3, a);
    } else if x == 172 && 16 <= y <= 31 {
      assert BlockShape(4, a);
    } else if x == 192 && y == 168 {
      assert BlockShape(5, a);
    } else {
      forall i | 0 <= i < 6 ensures !BlockShape(i, a) {
      }
    }
  }

  /** A candidate whose first character is neither an 'l' nor a 'u' in any case is no trusted name. */
  lemma NotAName(candidate: string)
    requires candidate == [] || (LowerRune(candidate[0]) != 'l' && LowerRune(candidate[0]) != 'u')
    ensures !TrustedName(candidate)
  {
    if candidate != [] {
      var n := ToLower(candidate);
      assert n[0] == LowerRune(candidate[0]);
      assert n != "localhost" && n != "unix";
      assert |n| >= 5 ==> n[..5][0] == n[0];
    }
  }

  /** With no custom matchers, a candidate that parses as an IPv4 address
      and cannot be a name is trusted exactly when the address is in
      127/8, 10/8, 172.16/12 or 192.168/16. */
  lemma IPv4Candidate(candidate: string, parseIP: IPParser, x: Byte, y: Byte, z: Byte, w: Byte)
    requires parseIP(candidate) == Some(IPv4(x, y, z, w))
    requires candidate == [] || (LowerRune(candidate[0]) != 'l' && LowerRune(candidate[0]) != 'u')
    ensures IsTrustedProxy(candidate, [], parseIP)
            <==> x == 127 || x == 10 || (x == 172 && 16 <= y <= 31) || (x == 192 && y == 168)
  {
    TrustedIPv4(x, y, z, w);
    NotAName(candidate);
  }

  /** The IPv4 addresses of the test table: the ends of each private block
      are in a fixed range, the addresses just outside them and a public
      address are not. IPv4Candidate carries these to the candidate strings. */
  lemma IPv4Examples()
    ensures TrustedAddress(IPv4(127, 0, 0, 0)) && TrustedAddress(IPv4(127, 255, 255, 255))
    ensures TrustedAddress(IPv4(10, 0, 0, 0)) && TrustedAddress(IPv4(10, 255, 255, 255))
    ensures TrustedAddress(IPv4(172, 16, 0, 0)) && TrustedAddress(IPv4(172, 31, 255, 255))
    ensures TrustedAddress(IPv4(192, 168, 0, 0)) && TrustedAddress(IPv4(192, 168, 255, 255))
    ensures !TrustedAddress(IPv4(9, 255, 255, 255)) && !TrustedAddress(IPv4(11, 0, 0, 0))
    ensures !TrustedAddress(IPv4(172, 15, 0, 0)) && !TrustedAddress(IPv4(172, 32, 0, 0))
    ensures !TrustedAddress(IPv4(192, 169, 0, 0)) && !TrustedAddress(IPv4(104, 28, 124, 69))
  {
    TrustedIPv4(127, 0, 0, 0);
    TrustedIPv4(127, 255, 255, 255);
    TrustedIPv4(10, 0, 0, 0);
    TrustedIPv4(10, 255, 255, 255);
    TrustedIPv4(172, 16, 0, 0);
    TrustedIPv4(172, 31, 255, 255);
    TrustedIPv4(192, 168, 0, 0);
    TrustedIPv4(192, 168, 255, 255);
    TrustedIPv4(9, 255, 255, 255);
    TrustedIPv4(11, 0, 0, 0);
    TrustedIPv4(172, 15, 0, 0);
    TrustedIPv4(172, 32, 0, 0);
    TrustedIPv4(192, 169, 0, 0);
    TrustedIPv4(104, 28, 124, 69);
  }

  /** Two rows of the test table end to end, with net.ParseIP's results given:
      a block end is trusted and the public address is not. */
  lemma IPv4CandidateExamples(parseIP: IPParser)
    requires parseIP("172.31.255.255") == Some(IPv4(172, 31, 255, 255))
    requires parseIP("104.28.124.69") == Some(IPv4(104, 28, 124, 69))
    ensures IsTrustedProxy("172.31.255.255", [], parseIP)
    ensures !IsTrustedProxy("104.28.124.69", [], parseIP)
  {
    IPv4Candidate("172.31.255.255", parseIP, 172, 31, 255, 255);
    IPv4Candidate("104.28.124.69", parseIP, 104, 28, 124, 69);
  }

  /** A 16-byte address that is not IPv4-mapped is in a fixed range exactly
      when it is ::1 or in fc00::/7. */
  lemma TrustedIPv6(a: IP)
    requires |a| == 16 && a[..12] != V4InV6Prefix
    ensures TrustedAddress(a) <==> a == Loopback6 || 0xfc <= a[0] <= 0xfd
  {
    assert To16(a) == Some(a);
    ShapeDecidesBlock(a);
    assert a == a[..15] + [a[15]];
    if a == Loopback6 {
      assert BlockShape(1, a);
    } else if 0xfc <= a[0] <= 0xfd {
      assert BlockShape(2, a);
    } else {
      forall i | 0 <= i < 6 ensures !BlockShape(i, a) {
      }
    }
  }

  /** With no custom matchers, a candidate that parses as an IPv6 address
      outside ::ffff:0:0/96 and cannot be a name is trusted exactly when the
      address is ::1 or in fc00::/7. */
  lemma IPv6Candidate(candidate: string, parseIP: IPParser, a: IP)
    requires parseIP(candidate) == Some(a) && |a| == 16 && a[..12] != V4InV6Prefix
    requires candidate == [] || (LowerRune(candidate[0]) != 'l' && LowerRune(candidate[0]) != 'u')
    ensures IsTrustedProxy(candidate, [], parseIP) <==> a == Loopback6 || 0xfc <= a[0] <= 0xfd
  {
    TrustedIPv6(a);
    NotAName(candidate);
  }

  /** ::1, the loopback address, is trusted. */
  lemma LoopbackTrusted(parseIP: IPParser)
    requires parseIP("::1") == Some(Loopback6)
    ensures IsTrustedProxy("::1", [], parseIP)
  {
    assert Loopback6[..12][10] == 0;
    IPv6Candidate("::1", parseIP, Loopback6);
  }

  /** fc00::, the lowest unique local address, is trusted. */
  lemma UniqueLocalFirstTrusted(parseIP: IPParser)
    requires parseIP("fc00::") == Some(UniqueLocalFirst)
    ensures IsTrustedProxy("fc00::", [], parseIP)
  {
    assert UniqueLocalFirst[..12][0] == 0xfc;
    IPv6Candidate("fc00::", parseIP, UniqueLocalFirst);
  }

  /** fdff:ffff:…:ffff, the highest unique local address, is trusted. */
  lemma UniqueLocalLastTrusted(parseIP: IPParser)
    requires parseIP("fdff:ffff:ffff:ffff:ffff:ffff:ffff:ffff") == Some(UniqueLocalLast)
    ensures IsTrustedProxy("fdff:ffff:ffff:ffff:ffff:ffff:ffff:ffff", [], parseIP)
  {
    assert UniqueLocalLast[..12][0] == 0xfd;
    IPv6Candidate("fdff:ffff:ffff:ffff:ffff:ffff:ffff:ffff", parseIP, UniqueLocalLast);
  }

  /** The trusted IPv6 cases of the test table. */
  lemma IPv6TrustedExamples(parseIP: IPParser)
    requires parseIP("::1") == Some(Loopback6)
    requires parseIP("fc00::") == Some(UniqueLocalFirst)
    requires parseIP("fdff:ffff:ffff:ffff:ffff:ffff:ffff:ffff") == Some(UniqueLocalLast)
    ensures IsTrustedProxy("::1", [], parseIP)
    ensures IsTrustedProxy("fc00::", [], parseIP)
    ensures IsTrustedProxy("fdff:ffff:ffff:ffff:ffff:ffff:ffff:ffff", [], parseIP)
  {
    LoopbackTrusted(parseIP);
    UniqueLocalFirstTrusted(parseIP);
    UniqueLocalLastTrusted(parseIP);
  }

  /** ::0, the unspecified address, is not trusted. */
  lemma UnspecifiedUntrusted(parseIP: IPParser)
    requires parseIP("::0") == Some(Fill(16, 0))
    ensures !IsTrustedProxy("::0", [], parseIP)
  {
    var zero := Fill(16, 0);
    assert zero[..12][10] == 0 && zero != Loopback6 by { assert zero[15] == 0 && Loopback6[15] == 1; }
    IPv6Candidate("::0", parseIP, zero);
  }

  /** ::2, the neighbour of the loopback address, is not trusted. */
  lemma LoopbackNeighbourUntrusted(parseIP: IPParser)
    requires parseIP("::2") == Some(Fill(15, 0) + [2])
    ensures !IsTrustedProxy("::2", [], parseIP)
  {
    var two := Fill(15, 0) + [2];
    assert two[..12][10] == 0 && two != Loopback6 by { assert two[15] == 2 && Loopback6[15] == 1; }
    IPv6Candidate("::2", parseIP, two);
  }

  /** fe00::, just above fc00::/7, is not trusted. */
  lemma AboveUniqueLocalUntrusted(parseIP: IPParser)
    requires parseIP("fe00::") == Some([0xfe] + Fill(15, 0))
    ensures !IsTrustedProxy("fe00::", [], parseIP)
  {
    var fe := [0xfe] + Fill(15, 0);
    assert fe[..12][0] == 0xfe;
    IPv6Candidate("fe00::", parseIP, fe);
  }

  /** The untrusted IPv6 cases of the test table. */
  lemma IPv6UntrustedExamples(parseIP: IPParser)
    requires parseIP("::0") == Some(Fill(16, 0))
    requires parseIP("::2") == Some(Fill(15, 0) + [2])
    requires parseIP("fe00::") == Some([0xfe] + Fill(15, 0))
    ensures !IsTrustedProxy("::0", [], parseIP) && !IsTrustedProxy("::2", [], parseIP)
    ensures !IsTrustedProxy("fe00::", [], parseIP)
  {
    UnspecifiedUntrusted(parseIP);
    LoopbackNeighbourUntrusted(parseIP);
    AboveUniqueLocalUntrusted(parseIP);
  }

  /** A candidate that net.ParseIP rejects and that is no name is untrusted. */
  lemma UnparsedExample(parseIP: IPParser)
    requires parseIP("fbff:ffff:ffff:ffff:ffff:ffff").None?
    ensures !IsTrustedProxy("fbff:ffff:ffff:ffff:ffff:ffff", [], parseIP)
  {
    NotAName("fbff:ffff:ffff:ffff:ffff:ffff");
  }

  lemma ShapeDecidesBlock(a: IP)
    requires |a| == 16
    ensures InTrustedBlock(a) <==> exists i :: 0 <= i < 6 && BlockShape(i, a)
  {
    forall i | 0 <= i < 6 ensures InCidr(a, TrustedBlocks[i]) <==> BlockShape(i, a) {
      BlockShapeOfCidr(i, a);
    }
  }
}
