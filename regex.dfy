/** internal/util/regex.go: the composite pattern matcher used for the target,
    exclude and hold expressions, and the registry-prefix normaliser. */
module Regex {
  import opened Outcomes
  import opened Strings

  /** Go's regexp package, left uninterpreted: whether a pattern compiles, and
      whether a compiled pattern matches somewhere in a subject (MatchString
      is unanchored). */
  datatype Engine = Engine(compiles: string -> bool, matchString: (string, string) -> bool)

  /** The empty pattern compiles and matches every subject, as in Go. */
  ghost predicate EmptyPatternMatchesAll(re: Engine) {
    re.compiles("") && forall s :: re.matchString("", s)
  }

  /** What evaluating a composite expression gives: a decision, or the
      reached pattern that failed to compile (log.Fatalf in the source). */
  datatype Verdict = Decided(matched: bool) | BadPattern(pattern: string)


  /** The OR loop: parts are trimmed, compiled and tried left to right; the
      first match wins. */
  function AnyPart(re: Engine, s: string, parts: seq<string>): Verdict
    decreases |parts|
  {
    if |parts| == 0 then Decided(false)
    else
      var p := TrimSpace(parts[0]);
      if !re.compiles(p) then BadPattern(p)
      else if re.matchString(p, s) then Decided(true)
      else AnyPart(re, s, parts[1..])
  }

  /** The && loop: parts are trimmed, compiled and tried left to right; the
      first non-match wins. */
  function AllParts(re: Engine, s: string, parts: seq<string>): Verdict
    decreases |parts|
  {
    if |parts| == 0 then Decided(true)
    else
      var p := TrimSpace(parts[0]);
      if !re.compiles(p) then BadPattern(p)
      else if !re.matchString(p, s) then Decided(false)
      else AllParts(re, s, parts[1..])
  }

  /** The meaning of MultiRegexMatch(s, config). */
  function Evaluate(re: Engine, s: string, config: string): Verdict {
    if Contains(config, "OR") then AnyPart(re, s, Split(config, "OR"))
    else if Contains(config, "&&") then AllParts(re, s, Split(config, "&&"))
    else if !re.compiles(config) then BadPattern(config)
    else Decided(re.matchString(config, s))
  }

  /** MultiRegexMatch: the loops of the source with their early returns. */
  method MultiRegexMatch(re: Engine, s: string, config: string) returns (v: Verdict)
    ensures v == Evaluate(re, s, config)
  {
    if Contains(config, "OR") {
      var parts := Split(config, "OR");
      for k := 0 to |parts|
        invariant AnyPart(re, s, parts) == AnyPart(re, s, parts[k..])
      {
        assert parts[k..][1..] == parts[k + 1..];
        var part := TrimSpace(parts[k]);
        if !re.compiles(part) {
          return BadPattern(part);
        }
        if re.matchString(part, s) {
          return Decided(true);
        }
      }
      return Decided(false);
    } else if Contains(config, "&&") {
      var parts := Split(config, "&&");
      for k := 0 to |parts|
        invariant AllParts(re, s, parts) == AllParts(re, s, parts[k..])
      {
        assert parts[k..][1..] == parts[k + 1..];
        var part := TrimSpace(parts[k]);
        if !re.compiles(part) {
          return BadPattern(part);
        }
        if !re.matchString(part, s) {
          return Decided(false);
        }
      }
      return Decided(true);
    } else {
      if !re.compiles(config) {
        return BadPattern(config);
      }
      return Decided(re.matchString(config, s));
    }
  }

  /** HoldTagMatch: the hold-tag expression against the joined tag string. */
  method HoldTagMatch(re: Engine, combinedTags: string, holdTagRegex: string) returns (v: Verdict)
    ensures v == Evaluate(re, combinedTags, holdTagRegex)
  {
    v := MultiRegexMatch(re, combinedTags, holdTagRegex);
  }

  /** CompositeMatch: the target-repository expression against a repository name. */
  method CompositeMatch(re: Engine, s: string, compositeRegex: string) returns (v: Verdict)
    ensures v == Evaluate(re, s, compositeRegex)
  {
    v := MultiRegexMatch(re, s, compositeRegex);
  }

  // ---------------------------------------------------------------------------
  // Properties of the combinators

  /** When every part compiles, OR is "some trimmed part matches". */
  lemma {:induction false} AnyPartWhenAllCompile(re: Engine, s: string, parts: seq<string>)
    requires forall k :: 0 <= k < |parts| ==> re.compiles(TrimSpace(parts[k]))
    ensures AnyPart(re, s, parts)
            == Decided(exists k :: 0 <= k < |parts| && re.matchString(TrimSpace(parts[k]), s))
    decreases |parts|
  {
    if |parts| > 0 {
      AnyPartWhenAllCompile(re, s, parts[1..]);
      assert forall k :: 1 <= k < |parts| ==> parts[1..][k - 1] == parts[k];
    }
  }

  /** When every part compiles, && is "every trimmed part matches". */
  lemma {:induction false} AllPartsWhenAllCompile(re: Engine, s: string, parts: seq<string>)
    requires forall k :: 0 <= k < |parts| ==> re.compiles(TrimSpace(parts[k]))
    ensures AllParts(re, s, parts)
            == Decided(forall k :: 0 <= k < |parts| ==> re.matchString(TrimSpace(parts[k]), s))
    decreases |parts|
  {
    if |parts| > 0 {
      AllPartsWhenAllCompile(re, s, parts[1..]);
      assert forall k :: 1 <= k < |parts| ==> parts[1..][k - 1] == parts[k];
    }
  }

  /** OR stops at its first match or bad pattern: what follows is never compiled. */
  lemma {:induction false} AnyPartShortCircuit(re: Engine, s: string, parts: seq<string>, rest: seq<string>)
    requires AnyPart(re, s, parts) != Decided(false)
    ensures AnyPart(re, s, parts + rest) == AnyPart(re, s, parts)
    decreases |parts|
  {
    assert (parts + rest)[0] == parts[0];
    if !re.compiles(TrimSpace(parts[0])) || re.matchString(TrimSpace(parts[0]), s) {
    } else {
      assert (parts + rest)[1..] == parts[1..] + rest;
      AnyPartShortCircuit(re, s, parts[1..], rest);
    }
  }

  /** && stops at its first non-match or bad pattern: what follows is never compiled. */
  lemma {:induction false} AllPartsShortCircuit(re: Engine, s: string, parts: seq<string>, rest: seq<string>)
    requires AllParts(re, s, parts) != Decided(true)
    ensures AllParts(re, s, parts + rest) == AllParts(re, s, parts)
    decreases |parts|
  {
    assert (parts + rest)[0] == parts[0];
    if !re.compiles(TrimSpace(parts[0])) || !re.matchString(TrimSpace(parts[0]), s) {
    } else {
      assert (parts + rest)[1..] == parts[1..] + rest;
      AllPartsShortCircuit(re, s, parts[1..], rest);
    }
  }

  /** The OR loop reaches part `k`: every earlier part compiled and did not match. */
  ghost predicate OrReaches(re: Engine, s: string, parts: seq<string>, k: nat) {
    k < |parts| && forall j :: 0 <= j < k ==> re.compiles(TrimSpace(parts[j])) && !re.matchString(TrimSpace(parts[j]), s)
  }

  /** Reaching a part that does not compile is fatal, and names that part. */
  lemma {:induction false} AnyPartReachesBadPattern(re: Engine, s: string, parts: seq<string>, k: nat)
    requires OrReaches(re, s, parts, k) && !re.compiles(TrimSpace(parts[k]))
    ensures AnyPart(re, s, parts) == BadPattern(TrimSpace(parts[k]))
    decreases k
  {
    if k > 0 {
      assert re.compiles(TrimSpace(parts[0])) && !re.matchString(TrimSpace(parts[0]), s);
      assert forall j :: 0 <= j < k - 1 ==> parts[1..][j] == parts[j + 1];
      AnyPartReachesBadPattern(re, s, parts[1..], k - 1);
    }
  }

  /** The && loop reaches part `k`: every earlier part compiled and matched. */
  ghost predicate AndReaches(re: Engine, s: string, parts: seq<string>, k: nat) {
    k < |parts| && forall j :: 0 <= j < k ==> re.compiles(TrimSpace(parts[j])) && re.matchString(TrimSpace(parts[j]), s)
  }

  lemma {:induction false} AllPartsReachesBadPattern(re: Engine, s: string, parts: seq<string>, k: nat)
    requires AndReaches(re, s, parts, k) && !re.compiles(TrimSpace(parts[k]))
    ensures AllParts(re, s, parts) == BadPattern(TrimSpace(parts[k]))
    decreases k
  {
    if k > 0 {
      assert re.compiles(TrimSpace(parts[0])) && re.matchString(TrimSpace(parts[0]), s);
      assert forall j :: 0 <= j < k - 1 ==> parts[1..][j] == parts[j + 1];
      AllPartsReachesBadPattern(re, s, parts[1..], k - 1);
    }
  }

  /** Whatever is reported as fatal is a pattern that does not compile. */
  lemma EvaluateBadPattern(re: Engine, s: string, config: string)
    ensures Evaluate(re, s, config).BadPattern? ==> !re.compiles(Evaluate(re, s, config).pattern)
  {
    var v := Evaluate(re, s, config);
    if v.BadPattern? && Contains(config, "OR") {
      AnyPartBadPatternCompiles(re, s, Split(config, "OR"));
    } else if v.BadPattern? && Contains(config, "&&") {
      AllPartsBadPattern(re, s, Split(config, "&&"));
    }
  }

  lemma {:induction false} AnyPartBadPatternCompiles(re: Engine, s: string, parts: seq<string>)
    ensures AnyPart(re, s, parts).BadPattern? ==> !re.compiles(AnyPart(re, s, parts).pattern)
    decreases |parts|
  {
    if |parts| > 0 {
      AnyPartBadPatternCompiles(re, s, parts[1..]);
    }
  }

  lemma {:induction false} AllPartsBadPattern(re: Engine, s: string, parts: seq<string>)
    ensures AllParts(re, s, parts).BadPattern? ==> !re.compiles(AllParts(re, s, parts).pattern)
    decreases |parts|
  {
    if |parts| > 0 {
      AllPartsBadPattern(re, s, parts[1..]);
    }
  }

  /** "OR" takes precedence: an expression containing it is split on "OR" alone,
      even when it also contains "&&", which then stays inside the regex parts. */
  lemma OrSemantics(re: Engine, s: string, config: string)
    requires Contains(config, "OR")
    requires forall k :: 0 <= k < |Split(config, "OR")| ==> re.compiles(TrimSpace(Split(config, "OR")[k]))
    ensures Evaluate(re, s, config).Decided?
    ensures Evaluate(re, s, config).matched
            <==> exists k :: 0 <= k < |Split(config, "OR")| && re.matchString(TrimSpace(Split(config, "OR")[k]), s)
  {
    var parts := Split(config, "OR");
    AnyPartWhenAllCompile(re, s, parts);
    if exists k :: 0 <= k < |parts| && re.matchString(TrimSpace(parts[k]), s) {
      var k :| 0 <= k < |parts| && re.matchString(TrimSpace(parts[k]), s);
      assert re.matchString(TrimSpace(Split(config, "OR")[k]), s);
    }
  }

  /** Without "OR", "&&" means every trimmed part matches. */
  lemma AndSemantics(re: Engine, s: string, config: string)
    requires !Contains(config, "OR") && Contains(config, "&&")
    requires forall k :: 0 <= k < |Split(config, "&&")| ==> re.compiles(TrimSpace(Split(config, "&&")[k]))
    ensures Evaluate(re, s, config).Decided?
    ensures Evaluate(re, s, config).matched
            <==> forall k :: 0 <= k < |Split(config, "&&")| ==> re.matchString(TrimSpace(Split(config, "&&")[k]), s)
  {
    var parts := Split(config, "&&");
    AllPartsWhenAllCompile(re, s, parts);
    assert Evaluate(re, s, config) == AllParts(re, s, parts);
    if !forall k :: 0 <= k < |parts| ==> re.matchString(TrimSpace(parts[k]), s) {
      var k :| 0 <= k < |parts| && !re.matchString(TrimSpace(parts[k]), s);
      assert 0 <= k < |Split(config, "&&")| && !re.matchString(TrimSpace(Split(config, "&&")[k]), s);
      assert !AllParts(re, s, parts).matched;
      assert !Evaluate(re, s, config).matched;
    } else {
      forall k | 0 <= k < |Split(config, "&&")| ensures re.matchString(TrimSpace(Split(config, "&&")[k]), s) {
        assert Split(config, "&&")[k] == parts[k];
      }
    }
  }

  /** With neither delimiter, the whole expression, untrimmed, is one unanchored regex. */
  lemma SingleSemantics(re: Engine, s: string, config: string)
    requires !Contains(config, "OR") && !Contains(config, "&&")
    ensures Evaluate(re, s, config)
            == if re.compiles(config) then Decided(re.matchString(config, s)) else BadPattern(config)
  {
  }

  /** An empty OR part (from a trailing "OR", say) is the empty regex, which matches
      everything: once reached it makes the whole expression true. */
  lemma EmptyOrPartMatches(re: Engine, s: string, config: string, k: nat)
    requires EmptyPatternMatchesAll(re)
    requires Contains(config, "OR")
    requires k < |Split(config, "OR")| && TrimSpace(Split(config, "OR")[k]) == ""
    requires forall j :: 0 <= j < k ==> re.compiles(TrimSpace(Split(config, "OR")[j]))
    ensures Evaluate(re, s, config) == Decided(true)
  {
    var parts := Split(config, "OR");
    var head := parts[..k + 1];
    AnyPartWhenAllCompile(re, s, head);
    assert head[k] == parts[k];
    AnyPartShortCircuit(re, s, head, parts[k + 1..]);
    assert head + parts[k + 1..] == parts;
  }

  // ---------------------------------------------------------------------------
  // TrimRegistry

  /** TrimRegistry: drop everything up to and including the first '/'. */
  function TrimRegistry(uri: string): (r: string)
    ensures !Contains(uri, "/") ==> r == uri
    ensures Contains(uri, "/") ==>
              |r| < |uri| && uri == uri[..|uri| - |r| - 1] + "/" + r
              && !Contains(uri[..|uri| - |r| - 1], "/")
  {
    match IndexOf(uri, "/")
    case None => uri
    case Some(i) =>
      OccursAtPrefix(uri, "/", i);
      assert uri[..i] + "/" + uri[i + 1..] == uri by {
        assert uri[i..i + 1] == "/";
      }
      uri[i + 1..]
  }

  /** The converse: a reference `host/path` with a '/'-free host normalises to `path`. */
  lemma TrimRegistryOfReference(host: string, path: string)
    requires !Contains(host, "/")
    ensures TrimRegistry(host + "/" + path) == path
  {
    var u := host + "/" + path;
    assert OccursAt(u, "/", |host|);
    forall i | 0 <= i < |host| ensures !OccursAt(u, "/", i) {
      if OccursAt(u, "/", i) {
        assert u[i] == host[i];
        assert OccursAt(host, "/", i);
      }
    }
    assert IndexOf(u, "/") == Some(|host|);
    assert u[|host| + 1..] == path;
  }
}
