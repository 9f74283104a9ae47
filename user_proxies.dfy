/** The user-defined trusted proxies: the matchers compiled from the
    TRUSTED_PROXY_RANGES configuration and the package-level list that holds them. */
module UserProxies {
  import opened Wrappers
  import opened Strings
  import opened TrustedProxies


  /** What LoadUserDefinedProxies appends for the pieces udps of the
      configuration, in order: one compiled matcher for every piece that is
      not blank and compiles. The untrimmed piece is what is compiled. */
  function CompiledPatterns(udps: seq<string>, compile: Compiler): (r: seq<Regexp>)
    ensures |r| <= |udps|
  {
    if udps == [] then []
    else
      var init := CompiledPatterns(udps[..|udps| - 1], compile);
      var udp := udps[|udps| - 1];
      init + CompiledPiece(udp, compile)
  }

  /** What one piece contributes: its matcher when it is not blank and compiles. */
  function CompiledPiece(udp: string, compile: Compiler): seq<Regexp>
  {
    if |TrimSpace(udp)| > 0 && compile(udp).Some? then [Regexp(udp, compile(udp).value)] else []
  }

  /** Every compiled matcher comes from a non-blank piece, kept verbatim, that compiled to it. */
  lemma {:induction false} CompiledPatternsSound(udps: seq<string>, compile: Compiler, j: nat)
    requires j < |CompiledPatterns(udps, compile)|
    ensures exists i :: 0 <= i < |udps| && FromPiece(CompiledPatterns(udps, compile)[j], udps[i], compile)
  {
    var n := |udps|;
    var init := udps[..n - 1];
    var r0 := CompiledPatterns(init, compile);
    var piece := CompiledPiece(udps[n - 1], compile);
    var r := CompiledPatterns(udps, compile);
    assert r == r0 + piece;
    if j < |r0| {
      CompiledPatternsSound(init, compile, j);
      var i :| 0 <= i < |init| && FromPiece(r0[j], init[i], compile);
      assert r[j] == r0[j] && udps[i] == init[i];
    } else {
      assert r[j] == piece[0];
      assert FromPiece(r[j], udps[n - 1], compile);
    }
  }

  /** The matcher m is what the piece udp compiles to, and udp is not blank. */
  ghost predicate FromPiece(m: Regexp, udp: string, compile: Compiler)
  {
    m.source == udp && |TrimSpace(udp)| > 0 && compile(udp) == Some(m.matchString)
  }

  /** One more piece: appended when it is not blank and compiles. */
  lemma CompiledPatternsSnoc(udps: seq<string>, udp: string, compile: Compiler)
    ensures CompiledPatterns(udps + [udp], compile) == CompiledPatterns(udps, compile) + CompiledPiece(udp, compile)
  {
    assert (udps + [udp])[..|udps|] == udps;
  }

  /** The loop step of LoadUserDefinedProxies: appending piece k's
      contribution extends the matchers of the first k pieces to k + 1. */
  lemma LoadStep(start: seq<Regexp>, before: seq<Regexp>, after: seq<Regexp>,
                                    udps: seq<string>, k: nat, compile: Compiler)
    requires k < |udps|
    requires before == start + CompiledPatterns(udps[..k], compile)
    requires after == before + CompiledPiece(udps[k], compile)
    ensures after == start + CompiledPatterns(udps[..k + 1], compile)
  {
    assert udps[..k + 1][..k] == udps[..k];
  }

  /** Every non-blank piece that compiles is among the matchers, verbatim. */
  lemma {:induction false} CompiledPatternsComplete(udps: seq<string>, compile: Compiler, i: nat)
    requires i < |udps| && |TrimSpace(udps[i])| > 0 && compile(udps[i]).Some?
    ensures exists j :: 0 <= j < |CompiledPatterns(udps, compile)|
              && CompiledPatterns(udps, compile)[j] == Regexp(udps[i], compile(udps[i]).value)
  {
    var init := udps[..|udps| - 1];
    var r := CompiledPatterns(udps, compile);
    if i == |udps| - 1 {
      assert r[|r| - 1] == Regexp(udps[i], compile(udps[i]).value);
    } else {
      assert init[i] == udps[i];
      CompiledPatternsComplete(init, compile, i);
      var j :| 0 <= j < |CompiledPatterns(init, compile)|
               && CompiledPatterns(init, compile)[j] == Regexp(udps[i], compile(udps[i]).value);
      assert r[j] == CompiledPatterns(init, compile)[j];
    }
  }

  /** The pieces are processed in order: loading a concatenation is loading
      one part after the other. */
  lemma {:induction false} CompiledPatternsAppend(u1: seq<string>, u2: seq<string>, compile: Compiler)
    ensures CompiledPatterns(u1 + u2, compile) == CompiledPatterns(u1, compile) + CompiledPatterns(u2, compile)
    decreases |u2|
  {
    if u2 == [] {
      assert u1 + u2 == u1;
    } else {
      var u2' := u2[..|u2| - 1];
      assert (u1 + u2)[..|u1 + u2| - 1] == u1 + u2';
      CompiledPatternsAppend(u1, u2', compile);
    }
  }

  /** Surrounding white space is not removed from what is compiled: a piece
      " x " that compiles is stored as " x ". */
  lemma UntrimmedPatternKept(config: string, compile: Compiler)
    requires config == " x "
    requires compile(" x ").Some?
    ensures CompiledPatterns(Split(config, ','), compile) == [Regexp(" x ", compile(" x ").value)]
  {
    SplitWithoutSeparator(config, ',');
    assert TrimSpace(config) == "x" by {
      assert TrimLeft(config) == "x ";
      assert TrimRight("x ") == "x";
    }
    assert [config][..0] == [];
  }

  /** The package-level list of user-defined matchers. */
  class TrustRegistry {
    var regexes: seq<Regexp>

    /** The package's init: no matchers. */
    constructor ()
      ensures regexes == []
    {
      regexes := [];
    }

    /** LoadUserDefinedProxies, with the value of the TRUSTED_PROXY_RANGES
        environment variable as config: split on ',', skip blank pieces,
        append every piece that compiles; pieces that do not compile are
        dropped and nothing is removed. */
    method LoadUserDefinedProxies(config: string, compile: Compiler)
      modifies this
      ensures regexes == old(regexes) + CompiledPatterns(Split(config, ','), compile)
    {
      var udps := Split(config, ',');
      for k := 0 to |udps|
        invariant regexes == old(regexes) + CompiledPatterns(udps[..k], compile)
      {
        ghost var before := regexes;
        var udp := udps[k];
        var normalized := TrimSpace(udp);
        if |normalized| > 0 {
          var compiled := compile(udp);
          if compiled.Some? {
            regexes := regexes + [Regexp(udp, compiled.value)];
          }
        }
        LoadStep(old(regexes), before, regexes, udps, k, compile);
      }
      assert udps[..|udps|] == udps;
    }

    /** The exported IsTrustedProxy: isTrustedProxy with the loaded matchers. */
    function IsTrusted(candidate: string, parseIP: IPParser): (r: bool)
      reads this
      ensures r <==> MatchesAny(regexes, candidate)
                     || (parseIP(candidate).Some? && TrustedAddress(parseIP(candidate).value))
                     || TrustedName(candidate)
    {
      IsTrustedProxy(candidate, regexes, parseIP)
    }
  }
}
