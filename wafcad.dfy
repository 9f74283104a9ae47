/** The request handler: which address a request comes from, what the rule
    evaluator is given, and when the request is blocked. */
module Wafcad {
  import opened Wrappers
  import opened NetIP
  import opened Decimal
  import opened TrustedProxies
  import opened UserProxies

  // ---------------------------------------------------------------------
  // Requests and responses
  // ---------------------------------------------------------------------

  /** net.SplitHostPort, host part only: None when the text is not host:port. */
  type HostSplitter = string -> Option<string>

  /** The parts of an http.Request the handler reads. xffValues is the slice
      the header map holds for x-forwarded-for, one entry per header line in
      the order received; it is shared with the request, not copied. */
  class Request {
    const xffValues: array<string>
    const remoteAddr: string
    const userAgent: string
    const rawPath: string
    const rawQuery: string
    const host: string
    const httpMethod: string

    constructor (xffValues: array<string>, remoteAddr: string, userAgent: string,
                 rawPath: string, rawQuery: string, host: string, httpMethod: string)
      ensures this.xffValues == xffValues && this.remoteAddr == remoteAddr
      ensures this.userAgent == userAgent && this.rawPath == rawPath && this.rawQuery == rawQuery
      ensures this.host == host && this.httpMethod == httpMethod
    {
      this.xffValues := xffValues;
      this.remoteAddr := remoteAddr;
      this.userAgent := userAgent;
      this.rawPath := rawPath;
      this.rawQuery := rawQuery;
      this.host := host;
      this.httpMethod := httpMethod;
    }
  }

  /** What an http.ResponseWriter has been given: the status, once one is
      written (later WriteHeader calls are ignored), and the body so far. */
  class ResponseWriter {
    var status: Option<int>
    var body: string

    constructor ()
      ensures status == None && body == []
    {
      status := None;
      body := [];
    }

    /** http.ResponseWriter.WriteHeader: only the first status counts. */
    method WriteHeader(code: int)
      modifies this
      ensures status == if old(status).None? then Some(code) else old(status)
      ensures body == old(body)
    {
      if status.None? {
        status := Some(code);
      }
    }

    /** io.WriteString on the writer: the text is appended, and a status of
        200 is implied when none was written. */
    method WriteString(text: string)
      modifies this
      ensures status == if old(status).None? then Some(StatusOK) else old(status)
      ensures body == old(body) + text
    {
      if status.None? {
        status := Some(StatusOK);
      }
      body := body + text;
    }
  }

  const StatusOK: int := 200
  const StatusForbidden: int := 403
  const BlockedBody: string := "Blocked"

  // ---------------------------------------------------------------------
  // getRealIp
  // ---------------------------------------------------------------------

  /** The fallback address: the host part of RemoteAddr, or RemoteAddr
      itself when it does not split as host:port. */
  function HostOrVerbatim(remoteAddr: string, split: HostSplitter): string
  {
    if split(remoteAddr).Some? then split(remoteAddr).value else remoteAddr
  }

  /** The trust test getRealIp applies to each forwarded value:
      IsTrustedProxy with the loaded matchers. */
  function TrustTest(regexes: seq<Regexp>, parseIP: IPParser): string -> bool
  {
    hop => IsTrustedProxy(hop, regexes, parseIP)
  }

  /** The test the hop walk applies is the registry's own trust test, on the registry's current patterns. */
  lemma TrustTestIsRegistryTest(registry: TrustRegistry, parseIP: IPParser, hop: string)
    ensures TrustTest(registry.regexes, parseIP)(hop) == registry.IsTrusted(hop, parseIP)
    ensures TrustTest(registry.regexes, parseIP)(hop) <==>
              MatchesAny(registry.regexes, hop)
              || (parseIP(hop).Some? && TrustedAddress(parseIP(hop).value))
              || TrustedName(hop)
  {
  }

  /** The client address of a request whose forwarded values arrived as
      received, with trusted telling which values are trusted proxies: the
      untrusted value nearest to this server, that is, the last untrusted
      one in receipt order, or the fallback address when every value is
      trusted. */
  function RealIp(received: seq<string>, remoteAddr: string, trusted: string -> bool,
                  split: HostSplitter): (r: string)
    ensures r in received || r == HostOrVerbatim(remoteAddr, split)
  {
    if received == [] then HostOrVerbatim(remoteAddr, split)
    else
      var last := received[|received| - 1];
      if !trusted(last) then last
      else RealIp(received[..|received| - 1], remoteAddr, trusted, split)
  }

  /** When some forwarded value is untrusted, the result is the one at
      position k exactly when it is untrusted and all values received after
      it are trusted. */
  lemma {:induction false} RealIpNearestUntrusted(received: seq<string>, remoteAddr: string, trusted: string -> bool,
                                                  split: HostSplitter, k: nat)
    requires k < |received| && !trusted(received[k])
    requires forall m :: k < m < |received| ==> trusted(received[m])
    ensures RealIp(received, remoteAddr, trusted, split) == received[k]
  {
    var n := |received|;
    if k < n - 1 {
      var init := received[..n - 1];
      assert trusted(received[n - 1]);
      assert forall m :: k < m < |init| ==> init[m] == received[m];
      RealIpNearestUntrusted(init, remoteAddr, trusted, split, k);
    }
  }

  /** When there are no forwarded values or all are trusted, the result is
      the host part of RemoteAddr, or RemoteAddr verbatim. */
  lemma {:induction false} RealIpAllTrusted(received: seq<string>, remoteAddr: string, trusted: string -> bool,
                                            split: HostSplitter)
    requires forall m :: 0 <= m < |received| ==> trusted(received[m])
    ensures RealIp(received, remoteAddr, trusted, split) == HostOrVerbatim(remoteAddr, split)
  {
    if received != [] {
      var init := received[..|received| - 1];
      assert forall m :: 0 <= m < |init| ==> init[m] == received[m];
      RealIpAllTrusted(init, remoteAddr, trusted, split);
    }
  }

  /** One step of the scan: the prefix of length p ends in the value
      received p-th, which decides unless it is trusted. */
  lemma RealIpStep(received: seq<string>, p: nat, remoteAddr: string, trusted: string -> bool, split: HostSplitter)
    requires 0 < p <= |received|
    ensures RealIp(received[..p], remoteAddr, trusted, split)
            == if !trusted(received[p - 1]) then received[p - 1]
               else RealIp(received[..p - 1], remoteAddr, trusted, split)
  {
    assert received[..p][p - 1] == received[p - 1];
    assert received[..p][..p - 1] == received[..p - 1];
  }

  /** s in the opposite order. */
  function Reversed(s: seq<string>): (r: seq<string>)
    ensures |r| == |s|
    ensures forall i :: 0 <= i < |s| ==> r[i] == s[|s| - 1 - i]
  {
    seq(|s|, i requires 0 <= i < |s| => s[|s| - 1 - i])
  }

  lemma ReversedTwice(s: seq<string>)
    ensures Reversed(Reversed(s)) == s
  {
  }

  /** The swap loop of getRealIp: i and j walk in from both ends of a
      non-empty slice, exchanging as they go. */
  method ReverseInPlace(a: array<string>)
    requires a.Length != 0
    modifies a
    ensures a[..] == Reversed(old(a[..]))
  {
    ghost var s := a[..];
    var n := a.Length;
    var i, j := 0, n - 1;
    while i < j
      invariant 0 <= i && j == n - 1 - i && i <= j + 1
      invariant forall m :: 0 <= m < i ==> a[m] == s[n - 1 - m] && a[n - 1 - m] == s[m]
      invariant forall m :: i <= m <= j ==> a[m] == s[m]
    {
      a[i], a[j] := a[j], a[i];
      i, j := i + 1, j - 1;
    }
  }

  /** getRealIp: reverses the forwarded values in place, so that the request
      keeps them reversed, then returns the first untrusted one nearest-first,
      falling back to the host part of RemoteAddr. The trust test reads the
      loaded user-defined matchers. */
  method GetRealIp(req: Request, registry: TrustRegistry, parseIP: IPParser, split: HostSplitter)
    returns (ip: string)
    modifies req.xffValues
    ensures req.xffValues[..] == Reversed(old(req.xffValues[..]))
    ensures ip == RealIp(old(req.xffValues[..]), req.remoteAddr, TrustTest(registry.regexes, parseIP), split)
  {
    var xff := req.xffValues;
    ghost var received := xff[..];
    var n := xff.Length;
    if n != 0 {
      ReverseInPlace(xff);
      var trusted := TrustTest(registry.regexes, parseIP);
      assert received[..n] == received;
      var k := 0;
      while k < n
        invariant 0 <= k <= n
        invariant xff[..] == Reversed(received)
        invariant RealIp(received, req.remoteAddr, trusted, split)
                  == RealIp(received[..n - k], req.remoteAddr, trusted, split)
      {
        var hop := xff[k];
        RealIpStep(received, n - k, req.remoteAddr, trusted, split);
        if !trusted(hop) {
          return hop;
        }
        k := k + 1;
      }
    } else {
      assert received == Reversed(received);
    }
    assert received[..0] == [];
    var host := split(req.remoteAddr);
    if host.Some? {
      ip := host.value;
    } else {
      ip := req.remoteAddr;
    }
  }

  // ---------------------------------------------------------------------
  // Ip2IntString
  // ---------------------------------------------------------------------

  /** Ip2IntString: "0" for a nil address, otherwise the decimal text of
      the unsigned big-endian number its bytes form. */
  function Ip2IntString(ip: Option<IP>): (s: string)
    ensures IsCanonical(s)
    ensures ip.None? ==> s == "0"
    ensures ip.Some? ==> ValueOf(s) == Value(ip.value)
  {
    if ip.None? then "0" else ToDecimal(Value(ip.value))
  }

  /** The text is a faithful rendering: it reads back as the number, and
      two addresses of one length get one text only when they are equal. */
  lemma Ip2IntStringInjective(a: IP, b: IP)
    requires |a| == |b|
    ensures Ip2IntString(Some(a)) == Ip2IntString(Some(b)) <==> a == b
  {
    CompareIsNumeric(a, b);
  }

  /** The numbers keep the order of the ranges: for 16-byte forms,
      bytes.Compare agrees with the order of the numbers the texts denote. */
  lemma Ip2IntStringOrder(a: IP, b: IP)
    requires |a| == |b|
    ensures Compare(a, b) < 0 <==> ValueOf(Ip2IntString(Some(a))) < ValueOf(Ip2IntString(Some(b)))
  {
    CompareIsNumeric(a, b);
  }

  /** net.ParseIP gives IPv4 addresses in their 16-byte mapped form, so the
      number of a.b.c.d is 0xffff << 32 plus the 32-bit IPv4 number. */
  lemma Ip2IntStringIPv4(a: Byte, b: Byte, c: Byte, d: Byte)
    ensures ValueOf(Ip2IntString(Some(IPv4(a, b, c, d)))) == V4InV6Offset + a * 0x100_0000 + b * 0x1_0000 + c * 0x100 + d
  {
    var v4 := [a, b, c, d];
    assert To16(v4) == Some(IPv4(a, b, c, d));
    ValueOfFour(a, b, c, d);
  }

  /** A nil address and the unspecified address :: get the same text. */
  lemma Ip2IntStringNilIsZero()
    ensures Ip2IntString(None) == Ip2IntString(Some(Fill(16, 0))) == "0"
  {
    ValueOfZeros(16);
  }

  // ---------------------------------------------------------------------
  // ServeHTTP
  // ---------------------------------------------------------------------

  /** An evaluator argument: a string or an integer. */
  datatype Arg = Str(s: string) | Int(i: int)

  /** The arguments handed to the rule evaluator, in order: the client
      address, its number as decimal text, the time in milliseconds, the
      user agent, the raw path, the raw query, the host and the method. */
  function EvaluatorArgs(ip: string, parseIP: IPParser, nowMillis: int, req: Request): (args: seq<Arg>)
    ensures |args| == 8
    ensures args[0] == Str(ip) && args[2] == Int(nowMillis)
    ensures args[1].Str? && IsCanonical(args[1].s)
    ensures parseIP(ip).None? ==> args[1] == Str("0")
    ensures parseIP(ip).Some? ==> ValueOf(args[1].s) == Value(parseIP(ip).value)
    ensures args[3..] == [Str(req.userAgent), Str(req.rawPath), Str(req.rawQuery), Str(req.host), Str(req.httpMethod)]
  {
    [Str(ip), Str(Ip2IntString(parseIP(ip))), Int(nowMillis), Str(req.userAgent),
     Str(req.rawPath), Str(req.rawQuery), Str(req.host), Str(req.httpMethod)]
  }

  /** What the evaluator reply looks like: none before the deadline, a
      connection or script error, a string, or a value of another type. */
  datatype EvalOutcome = TimedOut | EvalError | OkString(s: string) | OkOther

  /** The evaluator, abstracted as a function of the arguments. */
  type Evaluator = seq<Arg> -> EvalOutcome

  datatype Verdict = Block | Pass

  /** The decision at the end of ServeHTTP: the handler fails open, so
      anything but a timely, error-free string reply saying "Blocked" passes. */
  function VerdictOf(outcome: EvalOutcome): (v: Verdict)
    ensures v == Block <==> outcome.OkString? && outcome.s == BlockedBody
  {
    match outcome
    case OkString(s) => if s == BlockedBody then Block else Pass
    case _ => Pass
  }

  /** The only outcome that blocks; every failure passes. */
  lemma FailOpen(outcome: EvalOutcome)
    ensures outcome.TimedOut? || outcome.EvalError? || outcome.OkOther? ==> VerdictOf(outcome) == Pass
    ensures VerdictOf(outcome) == Block ==> outcome == OkString("Blocked")
  {
  }

  /** writeBlockedResponse: status 403, then the body "Blocked"; its error is always nil. */
  method WriteBlockedResponse(w: ResponseWriter)
    modifies w
    ensures w.status == if old(w.status).None? then Some(StatusForbidden) else old(w.status)
    ensures w.body == old(w.body) + BlockedBody
  {
    w.WriteHeader(StatusForbidden);
    w.WriteString(BlockedBody);
  }

  /** The handler's configuration. */
  datatype WafrisCaddy = WafrisCaddy(wafrisURL: string)

  /** ServeHTTP: resolves the client address, builds the arguments, asks the
      evaluator and either writes the blocked response or hands the request
      to the next handler, whose writes are not modelled. */
  method ServeHTTP(rw: ResponseWriter, req: Request, registry: TrustRegistry,
                   parseIP: IPParser, split: HostSplitter, nowMillis: int, evaluate: Evaluator)
    returns (ip: string, args: seq<Arg>, verdict: Verdict)
    modifies rw, req.xffValues
    ensures req.xffValues[..] == Reversed(old(req.xffValues[..]))
    ensures ip == RealIp(old(req.xffValues[..]), req.remoteAddr, TrustTest(registry.regexes, parseIP), split)
    ensures args == EvaluatorArgs(ip, parseIP, nowMillis, req)
    ensures verdict == VerdictOf(evaluate(args))
    ensures verdict == Block ==> rw.status == (if old(rw.status).None? then Some(StatusForbidden) else old(rw.status))
                                 && rw.body == old(rw.body) + BlockedBody
    ensures verdict == Pass ==> rw.status == old(rw.status) && rw.body == old(rw.body)
  {
    ip := GetRealIp(req, registry, parseIP, split);
    args := EvaluatorArgs(ip, parseIP, nowMillis, req);
    var outcome := evaluate(args);
    if outcome.OkString? && outcome.s == BlockedBody {
      WriteBlockedResponse(rw);
      verdict := Block;
    } else {
      verdict := Pass;
    }
  }

  // ---------------------------------------------------------------------
  // Validate
  // ---------------------------------------------------------------------

  /** Validate: an error exactly when no evaluator URL is configured. */
  function Validate(wc: WafrisCaddy): (err: Option<string>)
    ensures err.Some? <==> wc.wafrisURL == []
    ensures err.Some? ==> err.value == "423327974 [Wafris] WafrisURL cannot be empty"
  {
    if wc.wafrisURL == "" then Some("423327974 [Wafris] WafrisURL cannot be empty") else None
  }
}
