# wafris-caddy: trusted proxies and the request verdict, in Dafny

wafris-caddy is a Caddy middleware that asks a Wafris rule evaluator, a Lua
script run in Redis, whether to block each request. This project models the
two parts of it that decide things:

- **The trusted-proxy classifier** (`trusted_proxies.go`). A forwarding hop
  is trusted when one of the following holds:
  - a user-defined regular expression matches it;
  - it parses as an address in one of six fixed ranges: 127/8, `::1`,
    fc00::/7, 10/8, 172.16/12 and 192.168/16;
  - it names the local host or a Unix socket.

  The user-defined expressions come from the comma-separated
  `TRUSTED_PROXY_RANGES` setting.
- **The client-address resolver and the verdict** (`wafcad.go`).
  - `getRealIp` reverses the `x-forwarded-for` values in place. It picks the
    untrusted hop nearest to the server, and falls back to the host part of
    `RemoteAddr` when there is none.
  - `Ip2IntString` turns the address into decimal text.
  - `ServeHTTP` builds the eight evaluator arguments. It blocks with 403
    "Blocked" only when the evaluator answers the string "Blocked" in time
    and without error; everything else passes.
  - `Validate` rejects an empty evaluator URL.

Modules:

| file | module | contents |
|---|---|---|
| wrappers.dfy | `Wrappers` | `Option`: a nil slice, a nil error, a failed parse |
| netip.dfy | `NetIP` | `net.IP` as a byte sequence, `To16`, `bytes.Compare`, the big-endian value of `big.Int.SetBytes` |
| decimal.dfy | `Decimal` | the decimal text of `big.Int.String` |
| strings.dfy | `Strings` | `strings.Split`, `TrimSpace`, `ToLower`, `HasPrefix` |
| trusted_proxies.dfy | `TrustedProxies` | `IpBetween`, the fixed ranges, `isTrustedProxy`, and the test table as lemmas |
| user_proxies.dfy | `UserProxies` | `LoadUserDefinedProxies` and the package-level matcher list |
| wafcad.dfy | `Wafcad` | `getRealIp`, `Ip2IntString`, the evaluator arguments and verdict of `ServeHTTP`, `writeBlockedResponse`, `Validate` |

The fixed ranges appear twice:
- as the source's table of `IpBetween` tests;
- independently, as the CIDR blocks the RFCs define: section 3 of RFC 1918,
  section 2.5.3 of RFC 4291, section 3.1 of RFC 4193, and 127/8 of RFC 3330.

`TrustedRangesAreBlocks` proves the two agree, and `TrustedRangesDisjoint`
proves no address is in two ranges. `CompareIsNumeric` shows that the
byte-wise order of `bytes.Compare` is the numeric order of the 128-bit
values. This also ties `IpBetween` to the numbers that `Ip2IntString` prints.

The other library calls are treated as follows:
- `net.ParseIP`, `net.SplitHostPort` and `regexp.Compile` are function
  parameters.
- A compiled expression's `MatchString` is an opaque predicate. It is
  unanchored, as in Go, so nothing assumes a whole-string match.
- The evaluator is a function from the argument list to its outcome.
- The clock is the `nowMillis` parameter.
- The value of `TRUSTED_PROXY_RANGES` is the `config` parameter.

## Model

| member | source | states |
|---|---|---|
| NetIP.To16 | trusted_proxies.go:115-120 | the 16-byte form exists exactly for 4- and 16-byte addresses; mapping an IPv4 address adds 0xffff << 32 to its value |
| NetIP.To16Idempotent | trusted_proxies.go:115-117 | proof step: the 16-byte form is a normal form: widening it again changes nothing |
| NetIP.IPv4 | trusted_proxies.go:63-90 | net.IPv4 builds the 16-byte IPv4-mapped address, ending in the four octets, whose number is 0xffff << 32 plus the 32-bit number of a.b.c.d |
| NetIP.Value | wafcad.go:302 | definition: big.Int.SetBytes reads the bytes as one unsigned big-endian number; its properties are the Value lemmas below |
| NetIP.Compare | trusted_proxies.go:122 | bytes.Compare returns -1, 0 or 1, and 0 exactly when the byte strings are equal |
| NetIP.CompareIsNumeric | trusted_proxies.go:122 | on equal lengths, bytes.Compare is the sign of the difference of the big-endian values |
| NetIP.CompareAppend | trusted_proxies.go:122 | comparing concatenations with equal-length heads: the heads decide unless they are equal |
| NetIP.CompareWithFill | trusted_proxies.go:122 | an all-zero string is least and an all-0xff string greatest among strings of its length |
| NetIP.ValueAppend | wafcad.go:301-302 | the big-endian value of x + y is value(x) shifted by y's length plus value(y) |
| NetIP.ValueBound | wafcad.go:301-302 | the value of k bytes is below 256^k |
| NetIP.ValueOfFour | wafcad.go:301-302 | the value of four bytes is the 32-bit IPv4 number |
| Decimal.ToDecimal | wafcad.go:303 | big.Int.String gives canonical digits (no leading zero) that read back as the number |
| Decimal.ToDecimalOfValue | wafcad.go:303 | canonical digits are the only text of their value (the other half of the round trip) |
| Strings.Split | trusted_proxies.go:24 | at least one piece, none contains the separator, and joining the pieces gives the input back |
| Strings.SplitOfJoin | trusted_proxies.go:24 | splitting the join of separator-free pieces gives the pieces back |
| Strings.TrimSpace | trusted_proxies.go:28 | definition: strings.TrimSpace drops leading, then trailing white space |
| Strings.TrimSpaceIsSlice | trusted_proxies.go:28 | the trimmed piece is a slice of the input with only white space cut away on either side |
| Strings.TrimSpaceBlank | trusted_proxies.go:28-29 | TrimSpace leaves nothing exactly when every character is white space; otherwise its ends are not white space |
| Strings.ToLower | trusted_proxies.go:96 | lower-casing keeps the length and folds each character on its own (A-Z and the two special runes), so position i of the result depends only on position i of the input |
| Strings.ToLowerIdempotent | trusted_proxies.go:96 | lower-casing a lower-cased string changes nothing |
| Strings.ToLowerHasNoCapitals | trusted_proxies.go:96 | no character of a lower-cased string is an ASCII capital |
| Strings.ToLowerFixesLowerCase | trusted_proxies.go:96 | a string with no capitals and neither special rune is its own lower-case form |
| Strings.HasPrefix | trusted_proxies.go:103 | definition: strings.HasPrefix compares the first len(prefix) characters |
| Strings.HasPrefixIsConcat | trusted_proxies.go:103 | s has the prefix exactly when s is the prefix followed by something |
| TrustedProxies.IpBetween | trusted_proxies.go:110-126 | false for a nil bound or test or one with no 16-byte form; otherwise true exactly when from16 <= test16 <= to16 as 128-bit numbers |
| TrustedProxies.IpBetweenBounds | trusted_proxies.go:122-125 | a range from a to a holds exactly a; a range whose lower end sorts after its upper end holds nothing |
| TrustedProxies.IpBetweenByCompare | trusted_proxies.go:122-125 | proof step: on 16-byte addresses the test is the pair of bytes.Compare comparisons |
| TrustedProxies.BetweenBlock | trusted_proxies.go:122-125 | a range p.l.00…-p.h.ff… holds exactly the addresses starting with p whose next byte is in [l, h] |
| TrustedProxies.InAnyRange | trusted_proxies.go:61-93 | the chain of range tests succeeds exactly when some range of the table holds the address |
| TrustedProxies.RangeShape | trusted_proxies.go:61-93 | each of the six range tests as a test on the address bytes |
| TrustedProxies.V4RangeShape | trusted_proxies.go:63-90 | an IPv4 range x.l.0.0-x.h.255.255 holds exactly the mapped addresses x.y.*.* with l <= y <= h |
| TrustedProxies.Loopback6Shape | trusted_proxies.go:68-69 | the range ::1-::1 holds only ::1 |
| TrustedProxies.UniqueLocalShape | trusted_proxies.go:74-76 | the range fc00::-fdff:ffff:… holds exactly the addresses whose first byte is 0xfc or 0xfd |
| TrustedProxies.BlockShapeOfCidr | trusted_proxies.go:61-93 | each RFC block as a test on the address bytes |
| TrustedProxies.V4OctetCidr | trusted_proxies.go:63-81 | 127/8 and 10/8 as mapped /104 blocks: the mapped prefix and the first octet |
| TrustedProxies.LoopbackCidr | trusted_proxies.go:67-69 | ::1/128 holds only ::1 |
| TrustedProxies.UniqueLocalCidr | trusted_proxies.go:73-76 | fc00::/7 holds exactly the addresses starting with 0xfc or 0xfd |
| TrustedProxies.PrivateTwelveCidr | trusted_proxies.go:84-85 | 172.16/12 as a mapped /108 block: 172.16.*.* to 172.31.*.* |
| TrustedProxies.PrivateSixteenCidr | trusted_proxies.go:89-90 | 192.168/16 as a mapped /112 block |
| TrustedProxies.TrustedRangesAreBlocks | trusted_proxies.go:61-93 | the six range tests accept exactly the six RFC address blocks |
| TrustedProxies.TrustedBlocksDisjoint | trusted_proxies.go:61-93 | no address lies in two of the blocks |
| TrustedProxies.TrustedRangesDisjoint | trusted_proxies.go:61-93 | no address passes two of the range tests, so their order does not matter |
| TrustedProxies.RangesSeeNormalForm | trusted_proxies.go:59-93 | the range tests accept an address exactly when its 16-byte form is in an RFC block |
| TrustedProxies.ShapeDecidesBlock | trusted_proxies.go:61-93 | a 16-byte address is in a block exactly when it has the byte shape of one |
| TrustedProxies.MatchesAny | trusted_proxies.go:52-56 | the matcher loop succeeds exactly when some matcher accepts the candidate |
| TrustedProxies.IsTrustedProxy | trusted_proxies.go:50-108 | a matching custom expression makes the candidate trusted before any parsing; otherwise it is trusted exactly when it parses into a fixed range or is a local-host or Unix-socket name; an unparseable candidate only skips the range tests |
| TrustedProxies.TrustedName | trusted_proxies.go:96-105 | definition: the lower-cased candidate is "localhost", "unix", or "unix:" followed by something |
| TrustedProxies.TrustedNameIgnoresCase | trusted_proxies.go:96-105 | the name test gives the same answer for a candidate and its lower-case form |
| TrustedProxies.LocalhostAnyCase | trusted_proxies.go:96-98 | every mix of lower- and upper-case letters spelling localhost is trusted |
| TrustedProxies.UnixAnyCase | trusted_proxies.go:100-102 | every mix of lower- and upper-case letters spelling unix is trusted |
| TrustedProxies.MoreMatchersNeverUntrust | trusted_proxies.go:52-56 | adding matchers before or after the others never makes a trusted candidate untrusted |
| TrustedProxies.UnixSocketNames | trusted_proxies.go:103-105 | "unix:" in any case is trusted exactly when something follows it |
| TrustedProxies.TrustedNameExamples | trusted_proxies_test.go:60-64 | localhost, LOCALHOST, LoCaLhOsT, unix and unix:/path/to/socket are trusted names |
| TrustedProxies.UntrustedNameExamples | trusted_proxies_test.go:12-29 | notlocalhost, localhosttryingtotrickyou, unix:, bleair and the empty string are not |
| TrustedProxies.NotAName | trusted_proxies.go:96-105 | a candidate whose first character lower-cases to neither 'l' nor 'u' is no trusted name |
| TrustedProxies.TrustedIPv4 | trusted_proxies.go:61-93 | an IPv4 address is in a fixed range exactly when it is in 127/8, 10/8, 172.16/12 or 192.168/16 |
| TrustedProxies.IPv4Candidate | trusted_proxies.go:50-108 | with no custom matchers, a candidate that parses as IPv4 and is no name is trusted exactly when it is in one of the four IPv4 blocks |
| TrustedProxies.IPv4Examples | trusted_proxies_test.go:14-58 | the block ends of the test table are trusted; the neighbouring addresses and 104.28.124.69 are not |
| TrustedProxies.IPv4CandidateExamples | trusted_proxies_test.go:14-54 | 172.31.255.255 and 104.28.124.69 as candidate strings: trusted and untrusted |
| TrustedProxies.TrustedIPv6 | trusted_proxies.go:67-78 | an address that is not IPv4-mapped is in a fixed range exactly when it is ::1 or in fc00::/7 |
| TrustedProxies.IPv6Candidate | trusted_proxies.go:50-108 | with no custom matchers, such a candidate that is no name is trusted exactly when it is ::1 or in fc00::/7 |
| TrustedProxies.IPv6TrustedExamples | trusted_proxies_test.go:39-45 | ::1, fc00:: and fdff:ffff:…:ffff are trusted |
| TrustedProxies.LoopbackTrusted | trusted_proxies_test.go:39 | ::1 is trusted |
| TrustedProxies.UniqueLocalFirstTrusted | trusted_proxies_test.go:41 | fc00:: is trusted |
| TrustedProxies.UniqueLocalLastTrusted | trusted_proxies_test.go:45 | fdff:ffff:…:ffff is trusted |
| TrustedProxies.IPv6UntrustedExamples | trusted_proxies_test.go:17-20 | ::0, ::2 and fe00:: are not |
| TrustedProxies.UnspecifiedUntrusted | trusted_proxies_test.go:17 | ::0 is not trusted |
| TrustedProxies.LoopbackNeighbourUntrusted | trusted_proxies_test.go:18 | ::2 is not trusted |
| TrustedProxies.AboveUniqueLocalUntrusted | trusted_proxies_test.go:20 | fe00:: is not trusted |
| TrustedProxies.UnparsedExample | trusted_proxies_test.go:19 | the six-group string that net.ParseIP rejects is not trusted |
| UserProxies.CompiledPatterns | trusted_proxies.go:24-38 | the matchers appended for a list of pieces are at most as many as the pieces |
| UserProxies.CompiledPiece | trusted_proxies.go:28-33 | definition: one piece yields its matcher when its trimmed form is non-empty and the untrimmed piece compiles, and nothing otherwise |
| UserProxies.CompiledPatternsSound | trusted_proxies.go:28-33 | every appended matcher is what a non-blank piece compiled to, with that piece as its source |
| UserProxies.CompiledPatternsComplete | trusted_proxies.go:28-33 | every non-blank piece that compiles is among the matchers |
| UserProxies.CompiledPatternsSnoc | trusted_proxies.go:26-38 | proof step: one more piece is appended when it is not blank and compiles, and is dropped otherwise |
| UserProxies.CompiledPatternsAppend | trusted_proxies.go:26-38 | pieces are processed in order: loading a concatenation loads one part, then the other |
| UserProxies.LoadStep | trusted_proxies.go:26-38 | proof step: one turn of the loop extends the matchers of the first k pieces to those of k + 1 pieces |
| UserProxies.UntrimmedPatternKept | trusted_proxies.go:28-30 | the untrimmed piece is compiled and stored: " x " stays " x " |
| UserProxies.TrustRegistry.constructor | trusted_proxies.go:15-19 | the package starts with no user-defined matchers |
| UserProxies.TrustRegistry.LoadUserDefinedProxies | trusted_proxies.go:21-39 | the new list is the old list followed by the compiled non-blank pieces of the comma split; nothing is removed |
| UserProxies.TrustRegistry.IsTrusted | trusted_proxies.go:45-47 | the exported test on the loaded matchers: trusted exactly when a matcher accepts the candidate, it parses into a fixed range, or it is a local-host or Unix-socket name |
| Wafcad.Request.constructor | wafcad.go:266-268 | a request holds the shared x-forwarded-for slice and the fields the handler reads |
| Wafcad.ResponseWriter.constructor | wafcad.go:306-310 | a fresh response has no status and no body |
| Wafcad.ResponseWriter.WriteHeader | wafcad.go:307 | the first status written is kept, and the body is unchanged |
| Wafcad.ResponseWriter.WriteString | wafcad.go:308 | the text is appended to the body, with an implied 200 when no status was written |
| Wafcad.RealIp | wafcad.go:266-293 | the result is one of the forwarded values or the fallback from RemoteAddr, never anything else |
| Wafcad.TrustTest | wafcad.go:280 | definition: the test applied to each forwarded value, IsTrustedProxy over the loaded matchers |
| Wafcad.TrustTestIsRegistryTest | wafcad.go:280 | that test is the registry's exported IsTrusted, trusted exactly on a matcher, a fixed range or a trusted name |
| Wafcad.HostOrVerbatim | wafcad.go:287-291 | definition: the host part of RemoteAddr, or RemoteAddr itself when it does not split as host:port |
| Wafcad.RealIpNearestUntrusted | wafcad.go:272-284 | when value k is untrusted and every value received after it is trusted, value k is the result |
| Wafcad.RealIpAllTrusted | wafcad.go:270-292 | with no forwarded values or only trusted ones, the result is the host part of RemoteAddr, or RemoteAddr verbatim when it does not split |
| Wafcad.RealIpStep | wafcad.go:278-284 | proof step: scanning nearest-first: the nearest remaining value decides unless it is trusted |
| Wafcad.Reversed | wafcad.go:272-274 | position i of the reversal holds position n-1-i of the input |
| Wafcad.ReversedTwice | wafcad.go:272-274 | reversing twice gives the input back |
| Wafcad.ReverseInPlace | wafcad.go:272-274 | the two-pointer swap loop leaves the slice reversed |
| Wafcad.GetRealIp | wafcad.go:266-293 | the request's x-forwarded-for slice is left reversed, and the returned address is RealIp of the values as received, with IsTrustedProxy over the loaded matchers |
| Wafcad.Ip2IntString | wafcad.go:296-304 | "0" for nil, otherwise canonical decimal digits whose value is the big-endian number of the bytes |
| Wafcad.Ip2IntStringInjective | wafcad.go:296-304 | two addresses of one length get the same text exactly when they are equal |
| Wafcad.Ip2IntStringOrder | wafcad.go:296-304 | bytes.Compare on equal-length addresses agrees with the order of the printed numbers |
| Wafcad.Ip2IntStringIPv4 | wafcad.go:119-304 | a parsed IPv4 address a.b.c.d prints as 0xffff << 32 plus its 32-bit number |
| Wafcad.Ip2IntStringNilIsZero | wafcad.go:297-299 | a nil address and the unspecified address :: both print "0" |
| Wafcad.EvaluatorArgs | wafcad.go:119-138 | eight arguments in order: ip, its number as canonical decimal text ("0" when it does not parse), the time, user agent, raw path, raw query, host, method |
| Wafcad.VerdictOf | wafcad.go:160-194 | the request is blocked exactly when the evaluator answered in time, without error, with the string "Blocked" |
| Wafcad.FailOpen | wafcad.go:160-194 | timeout, error and a non-string reply all pass |
| Wafcad.WriteBlockedResponse | wafcad.go:306-310 | status 403 (unless one was already written), then the body "Blocked" |
| Wafcad.ServeHTTP | wafcad.go:108-195 | resolves the address with GetRealIp, builds the arguments, and writes the blocked response exactly on a Block verdict; on Pass the response is untouched here |
| Wafcad.Validate | wafcad.go:95-105 | an error exactly when the evaluator URL is empty |

## Left out

- `Provision` and `redisClient` (wafcad.go:44-93) are left out: Redis URL parsing, SCRIPT LOAD and HSET are network I/O.
- The timeout context, the goroutine, the channel and the `select` race in `ServeHTTP` (wafcad.go:140-168) are left out. The model keeps only their result, the `TimedOut` outcome.
- The timeout in seconds and its `time.Duration` conversion are left out, because they are floating point. So are `UnmarshalCaddyfile`, `parseCaddyfileHandlerDirective`, `CaddyModule` and `init`: they are Caddy configuration and registration glue.
- `Wafcad.ServeHTTP`: what `next.ServeHTTP` writes on a pass is not modelled, since the next handler is outside this package. The `Pass` verdict stands for that call.
- Zap logging, `os.Getenv` and `time.Now` are parameters or omitted. Logging changes no state the model tracks.
- `net.ParseIP`, `net.SplitHostPort` and `regexp.Compile` are parameters rather than parsers. What they return for a given text is assumed, not derived. The example lemmas therefore state net.ParseIP's results as preconditions.
- `Strings.LowerRune` maps only A-Z, U+0130 and U+212A. These are the only characters whose Go lower case is ASCII, and the name checks compare only with ASCII text, so the trust verdict is exact. The lower case of other characters is not modelled.
- Strings are sequences of Unicode scalar values, so invalid UTF-8 is not modelled. Byte lengths are character counts. There are two length tests, and each has the same answer for bytes and for characters: `len(normalized_udp_str) > 0` in trusted_proxies.go:29 asks whether the trimmed piece is empty, and `len(normalized) > 5` in trusted_proxies.go:103 asks whether anything follows the "unix:" prefix.
- `UserProxies.TrustRegistry.LoadUserDefinedProxies` does not model the log lines written for added and rejected expressions.
- A single `x-forwarded-for` header line that holds a comma-separated list is not split. The source treats each header line as one hop, and so does the model.
- The code's `MatchString` matches anywhere in the candidate, and the code compiles the untrimmed piece. The model follows the code (see `UserProxies.UntrimmedPatternKept`). A pattern must carry its own `\A…\z` anchors to match whole strings, as the test patterns do.
