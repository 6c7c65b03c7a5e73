/** The target-address normaliser (internal/proxy/address.go): user input such as
    "8080", ":8080", "example.com" or "https://example.com" becomes "host:port".
    Go's `net/url` is not part of this model: the URL parser is a parameter. */
module Address {
  import opened Wrappers
  import opened Strings

  /** What the proxy reads from a parsed URL: `u.Scheme`, `u.Hostname()` and `u.Port()`. */
  datatype Url = Url(scheme: string, hostname: string, port: string)

  /** `url.Parse`: a URL, or the parser's error message. */
  type UrlParser = string -> Result<Url, string>

  datatype HostPort = HostPort(host: string, port: string)

  const EmptyTarget: string := "target cannot be empty"
  const InvalidTarget: string := "invalid target format: "

  /** The port a URL without an explicit port gets: 443 for https, 80 otherwise
      (sections 4.2.2 and 4.2.1 of RFC 9110). */
  function DefaultPort(u: Url, input: string): string {
    if u.scheme == "https" || HasPrefix(input, "https://") then "443" else "80"
  }

  /** The host and the port that `ParseTarget` joins: its rules applied to the
      input with the surrounding white space trimmed. */
  function Endpoint(raw: string, parse: UrlParser): Result<HostPort, string> {
    Rules(TrimSpace(raw), parse)
  }

  /** The rules, in priority order, on trimmed input: empty input is an error; all
      digits is a local port; a leading ':' is a local port; anything else is a URL,
      "http://" being put in front when the input has no "://". */
  function Rules(input: string, parse: UrlParser): (r: Result<HostPort, string>)
    ensures r == Failure(EmptyTarget) <==> input == ""
    ensures r.Failure? ==> r.error == EmptyTarget || HasPrefix(r.error, InvalidTarget)
    ensures r.Success? ==> r.value.host != ""
  {
    if input == "" then Failure(EmptyTarget)
    else if IsDigits(input) then Success(HostPort("localhost", input))
    else if HasPrefix(input, ":") then Success(HostPort("localhost", input[1..]))
    else
      var url := if Contains(input, "://") then input else "http://" + input;
      match parse(url)
      case Failure(e) =>
        assert (InvalidTarget + e)[0] != EmptyTarget[0];
        assert (InvalidTarget + e)[..|InvalidTarget|] == InvalidTarget;
        Failure(InvalidTarget + e)
      case Success(u) =>
        var port := if u.port == "" then DefaultPort(u, input) else u.port;
        var host := if u.hostname == "" then "localhost" else u.hostname;
        Success(HostPort(host, port))
  }

  /** `ParseTarget`, as written: host and port joined with a colon. */
  function ParseTarget(raw: string, parse: UrlParser): (r: Result<string, string>)
    ensures r.Failure? ==> r.error == EmptyTarget || HasPrefix(r.error, InvalidTarget)
    ensures r.Success? ==> ':' in r.value
  {
    match Endpoint(raw, parse)
    case Failure(e) => Failure(e)
    case Success(hp) =>
      ColonJoined(hp.host, hp.port);
      Success(hp.host + ":" + hp.port)
  }

  lemma ColonJoined(host: string, port: string)
    ensures ':' in host + ":" + port
  {
    assert (host + ":" + port)[|host|] == ':';
  }

  // ----- what the rules promise -----

  /** Text without white space at either end is left alone by the trim. */
  lemma TrimSpaceOfTrimmed(s: string)
    requires s != [] ==> !IsUnicodeSpace(s[0]) && !IsUnicodeSpace(s[|s| - 1])
    ensures TrimSpace(s) == s
  {
  }

  /** Blank input, and only blank input, gives the "target cannot be empty" error,
      whatever the URL parser would say. */
  lemma EmptyTargetIffBlank(raw: string, parse: UrlParser)
    ensures ParseTarget(raw, parse) == Failure(EmptyTarget) <==> AllUnicodeSpace(raw)
  {
    var input := TrimSpace(raw);
    if input != "" && !IsDigits(input) && !HasPrefix(input, ":") {
      var url := if Contains(input, "://") then input else "http://" + input;
      match parse(url)
      case Failure(e) =>
        assert Endpoint(raw, parse) == Failure(InvalidTarget + e);
        assert (InvalidTarget + e)[0] != EmptyTarget[0];
      case Success(u) =>
    }
  }

  /** A port number alone is a port on localhost. */
  lemma DigitsAreLocalPort(p: string, parse: UrlParser)
    requires IsDigits(p)
    ensures ParseTarget(p, parse) == Success("localhost:" + p)
  {
    TrimSpaceOfTrimmed(p);
    assert Endpoint(p, parse) == Success(HostPort("localhost", p));
    assert "localhost" + ":" + p == "localhost:" + p;
  }

  /** A leading colon means localhost: the input is appended to "localhost". */
  lemma ColonIsLocalHost(p: string, parse: UrlParser)
    requires HasPrefix(p, ":") && !IsUnicodeSpace(p[|p| - 1])
    ensures ParseTarget(p, parse) == Success("localhost" + p)
  {
    TrimSpaceOfTrimmed(p);
    assert !IsDigits(p) by { assert !('0' <= p[0] <= '9'); }
    assert "localhost" + ":" + p[1..] == "localhost" + p by {
      assert p == [':'] + p[1..];
    }
  }

  /** The digit rule and the colon rule come before URL parsing: for blank input,
      digits, or a leading colon, the parser is never consulted. */
  lemma LocalRulesIgnoreParser(raw: string, p1: UrlParser, p2: UrlParser)
    requires var input := TrimSpace(raw); input == "" || IsDigits(input) || HasPrefix(input, ":")
    ensures ParseTarget(raw, p1) == ParseTarget(raw, p2)
  {
  }

  /** Input without "://" is parsed as "http://" + input: the result depends on the
      parser only through its answer for that URL. */
  lemma NoSchemeParsedAsHttp(raw: string, p1: UrlParser, p2: UrlParser)
    requires !Contains(TrimSpace(raw), "://")
    requires p1("http://" + TrimSpace(raw)) == p2("http://" + TrimSpace(raw))
    ensures ParseTarget(raw, p1) == ParseTarget(raw, p2)
  {
    NoSchemeRulesAgree(TrimSpace(raw), p1, p2);
  }

  lemma NoSchemeRulesAgree(input: string, p1: UrlParser, p2: UrlParser)
    requires !Contains(input, "://")
    requires p1("http://" + input) == p2("http://" + input)
    ensures Rules(input, p1) == Rules(input, p2)
  {
  }

  /** A parse failure is reported, wrapped, and no address is returned. */
  lemma ParseFailureIsReported(raw: string, parse: UrlParser, url: string)
    requires var input := TrimSpace(raw);
      input != "" && !IsDigits(input) && !HasPrefix(input, ":")
      && url == (if Contains(input, "://") then input else "http://" + input)
    requires parse(url).Failure?
    ensures ParseTarget(raw, parse) == Failure(InvalidTarget + parse(url).error)
  {
  }

  /** A URL without a port gets 443 when its scheme is https or the input starts with
      "https://", 80 otherwise; a URL without a host gets "localhost". */
  lemma UrlDefaults(raw: string, parse: UrlParser, url: string, u: Url)
    requires var input := TrimSpace(raw);
      input != "" && !IsDigits(input) && !HasPrefix(input, ":")
      && url == (if Contains(input, "://") then input else "http://" + input)
    requires parse(url) == Success(u)
    ensures var port := if u.port != "" then u.port
                        else if u.scheme == "https" || HasPrefix(TrimSpace(raw), "https://") then "443"
                        else "80";
            var host := if u.hostname != "" then u.hostname else "localhost";
            ParseTarget(raw, parse) == Success(host + ":" + port)
  {
  }

  /** Input with no "://" cannot start with "https://", so unless the parser reports
      another scheme or a port, it gets port 80. */
  lemma NoSchemeDefaultsTo80(raw: string, parse: UrlParser, u: Url)
    requires var input := TrimSpace(raw);
      input != "" && !IsDigits(input) && !HasPrefix(input, ":") && !Contains(input, "://")
    requires parse("http://" + TrimSpace(raw)) == Success(u)
    requires u.scheme == "http" && u.port == ""
    ensures ParseTarget(raw, parse)
         == Success((if u.hostname != "" then u.hostname else "localhost") + ":80")
  {
    var host := if u.hostname != "" then u.hostname else "localhost";
    NoSchemeRule(TrimSpace(raw), parse, u);
    AppendJoined(host, ":", "80", ":80");
  }

  lemma AppendJoined(a: string, b: string, c: string, bc: string)
    requires bc == b + c
    ensures a + b + c == a + bc
  {
  }

  lemma NoSchemeRule(input: string, parse: UrlParser, u: Url)
    requires input != "" && !IsDigits(input) && !HasPrefix(input, ":") && !Contains(input, "://")
    requires parse("http://" + input) == Success(u)
    requires u.scheme == "http" && u.port == ""
    ensures Rules(input, parse) == Success(HostPort(if u.hostname != "" then u.hostname else "localhost", "80"))
  {
    HttpsPrefixHasScheme(input);
    assert DefaultPort(u, input) == "80";
  }

  lemma HttpsPrefixHasScheme(s: string)
    ensures HasPrefix(s, "https://") ==> Contains(s, "://")
  {
    if HasPrefix(s, "https://") {
      assert s[5..8] == s[..8][5..8];
      assert OccursAt(s, "://", 5);
    }
  }

  /** Every success joins a non-empty host and a port; the port is empty only for
      the bare input ":". */
  lemma SuccessIsHostColonPort(raw: string, parse: UrlParser)
    requires Endpoint(raw, parse).Success?
    ensures var hp := Endpoint(raw, parse).value;
      && hp.host != ""
      && ParseTarget(raw, parse) == Success(hp.host + ":" + hp.port)
      && (hp.port == "" <==> TrimSpace(raw) == ":")
  {
    RulesSuccess(TrimSpace(raw), parse);
  }

  lemma RulesSuccess(input: string, parse: UrlParser)
    requires Rules(input, parse).Success?
    ensures var hp := Rules(input, parse).value;
      hp.host != "" && (hp.port == "" <==> input == ":")
  {
    if IsDigits(input) {
      assert input != ":" by { assert '0' <= input[0] <= '9'; }
    } else if HasPrefix(input, ":") {
      if input[1..] == "" {
        assert input == [':'];
      }
    } else {
      assert input != ":" by { assert !HasPrefix(input, ":"); }
    }
  }

  /** What the rules see in an input without a scheme. */
  lemma NoSchemeFacts(input: string, url: string)
    requires input != [] && !IsUnicodeSpace(input[0]) && !IsUnicodeSpace(input[|input| - 1])
    requires !('0' <= input[0] <= '9') && input[0] != ':' && '/' !in input
    requires url == "http://" + input
    ensures input != "" && TrimSpace(input) == input && !IsDigits(input) && !HasPrefix(input, ":")
    ensures !Contains(input, "://") && !HasPrefix(input, "https://")
  {
    UrlInputFacts(input);
    NoSlashNoScheme(input);
    HttpsPrefixHasScheme(input);
  }

  /** Text that neither the trim, nor the digit rule, nor the colon rule takes. */
  lemma UrlInputFacts(input: string)
    requires input != [] && !IsUnicodeSpace(input[0]) && !IsUnicodeSpace(input[|input| - 1])
    requires !('0' <= input[0] <= '9') && input[0] != ':'
    ensures TrimSpace(input) == input && !IsDigits(input) && !HasPrefix(input, ":")
  {
    TrimSpaceOfTrimmed(input);
  }

  /** The URL rule on already-trimmed input, with the result spelled out. */
  lemma UrlResult(parse: UrlParser, input: string, url: string, u: Url, joined: string)
    requires input != "" && TrimSpace(input) == input && !IsDigits(input) && !HasPrefix(input, ":")
    requires url == (if Contains(input, "://") then input else "http://" + input)
    requires parse(url) == Success(u)
    requires joined == (if u.hostname != "" then u.hostname else "localhost") + ":"
                         + (if u.port != "" then u.port else DefaultPort(u, input))
    ensures ParseTarget(input, parse) == Success(joined)
  {
  }

  lemma NoSlashNoScheme(s: string)
    requires '/' !in s
    ensures !Contains(s, "://")
  {
    forall i: nat | i <= |s| ensures !OccursAt(s, "://", i) {
      if i + 3 <= |s| {
        assert s[i + 1] in s;
        assert s[i..i + 3][1] == s[i + 1] != '/' == "://"[1];
      }
    }
  }

  // ----- joining and splitting "host:port" (Go's net.JoinHostPort / net.SplitHostPort) -----

  /** The last position of `c` in `s`, if any. */
  function LastIndexOf(s: string, c: char): (r: Option<nat>)
    ensures r.None? <==> c !in s
    ensures r.Some? ==> r.value < |s| && s[r.value] == c && c !in s[r.value + 1..]
  {
    if s == [] then None
    else if s[|s| - 1] == c then Some(|s| - 1)
    else
      var r := LastIndexOf(s[..|s| - 1], c);
      assert r.Some? ==> s[r.value + 1..] == s[..|s| - 1][r.value + 1..] + [s[|s| - 1]];
      assert r.None? ==> s == s[..|s| - 1] + [s[|s| - 1]];
      r
  }

  /** `LastIndexOf` finds the occurrence that no later one follows. */
  lemma {:induction false} LastIndexIs(s: string, c: char, k: nat)
    requires k < |s| && s[k] == c && c !in s[k + 1..]
    ensures LastIndexOf(s, c) == Some(k)
    decreases |s|
  {
    var last := |s| - 1;
    assert k == last || s[last] in s[k + 1..];
    if s[last] != c {
      var init := s[..last];
      assert s[k + 1..] == init[k + 1..] + [s[last]];
      LastIndexIs(init, c, k);
    }
  }

  /** The reading of an address that dialling performs: the port follows the last
      colon, and a host that holds a colon must be written in brackets.
      This is simpler than Go's net.SplitHostPort, which it stands for only where
      the round trip with `JoinHostPort` needs it: Go takes the FIRST ']' as the end of
      a bracketed host and rejects a stray '[' or ']' anywhere (in the host or the
      port) and a '[' with no ']'; here only the last colon and the characters
      around it are looked at, so "[a]b]:80", "a[b:80" or "[ab:80" are accepted. */
  function SplitHostPort(s: string): Option<HostPort> {
    match LastIndexOf(s, ':')
    case None => None
    case Some(i) =>
      var left := s[..i];
      if |left| >= 2 && left[0] == '[' && left[|left| - 1] == ']' then
        Some(HostPort(left[1..|left| - 1], s[i + 1..]))
      else if ':' in left then None
      else Some(HostPort(left, s[i + 1..]))
  }

  /** Host and port joined so that `SplitHostPort` reads them back: a host holding a
      colon (an IPv6 literal) goes in brackets. */
  function JoinHostPort(host: string, port: string): string {
    if ':' in host then "[" + host + "]:" + port else host + ":" + port
  }

  lemma SplitJoinRoundTrip(host: string, port: string)
    requires ':' !in port && '[' !in host && ']' !in host
    ensures SplitHostPort(JoinHostPort(host, port)) == Some(HostPort(host, port))
  {
    if ':' in host {
      BracketedRoundTrip(host, port);
    } else {
      PlainRoundTrip(host, port);
    }
  }

  lemma BracketedRoundTrip(host: string, port: string)
    requires ':' !in port && '[' !in host && ']' !in host && ':' in host
    ensures SplitHostPort("[" + host + "]:" + port) == Some(HostPort(host, port))
  {
    var left := "[" + host + "]";
    SplitAtColon(left, port);
    AppendJoined("[" + host, "]", ":", "]:");
    assert left[1..|left| - 1] == host;
  }

  lemma PlainRoundTrip(host: string, port: string)
    requires ':' !in port && '[' !in host && ':' !in host
    ensures SplitHostPort(host + ":" + port) == Some(HostPort(host, port))
  {
    SplitAtColon(host, port);
    assert |host| >= 2 ==> host[0] in host;
  }

  /** Text, a colon, and a port without a colon: the split happens at that colon. */
  lemma SplitAtColon(left: string, port: string)
    requires ':' !in port
    ensures SplitHostPort(left + ":" + port)
         == if |left| >= 2 && left[0] == '[' && left[|left| - 1] == ']' then Some(HostPort(left[1..|left| - 1], port))
            else if ':' in left then None
            else Some(HostPort(left, port))
  {
    var s := left + ":" + port;
    assert s[|left| + 1..] == port;
    assert s[..|left|] == left;
    LastIndexIs(s, ':', |left|);
  }

  /** `ParseTarget` with the join corrected: the result always reads back as the
      host and port the rules found. */
  function ParseTargetJoined(raw: string, parse: UrlParser): Result<string, string> {
    match Endpoint(raw, parse)
    case Failure(e) => Failure(e)
    case Success(hp) => Success(JoinHostPort(hp.host, hp.port))
  }

  lemma ParseTargetJoinedReadsBack(raw: string, parse: UrlParser)
    requires Endpoint(raw, parse).Success?
    requires var hp := Endpoint(raw, parse).value;
      ':' !in hp.port && '[' !in hp.host && ']' !in hp.host
    ensures ParseTargetJoined(raw, parse).Success? && ParseTarget(raw, parse).Success?
    ensures SplitHostPort(ParseTargetJoined(raw, parse).value) == Some(Endpoint(raw, parse).value)
  {
    var hp := Endpoint(raw, parse).value;
    SplitJoinRoundTrip(hp.host, hp.port);
  }

  /** As written, the brackets of an IPv6 literal are lost: `Hostname()` strips them,
      and "[::1]:8080" becomes "::1:8080", which does not read back as a host and a
      port. The corrected join keeps them. */
  lemma ParseTargetLosesIPv6Brackets(parse: UrlParser)
    requires parse("http://[::1]:8080") == Success(Url("http", "::1", "8080"))
    ensures ParseTarget("[::1]:8080", parse) == Success("::1:8080")
    ensures SplitHostPort("::1:8080") == None
    ensures ParseTargetJoined("[::1]:8080", parse) == Success("[::1]:8080")
    ensures SplitHostPort("[::1]:8080") == Some(HostPort("::1", "8080"))
  {
    IPv6Endpoint(parse, "[::1]:8080");
    UnbracketedIPv6DoesNotSplit("::1:8080");
    BracketedIPv6Splits("::1", "8080", "[::1]:8080");
  }

  lemma IPv6Endpoint(parse: UrlParser, input: string)
    requires input == "[::1]:8080"
    requires parse("http://[::1]:8080") == Success(Url("http", "::1", "8080"))
    ensures Endpoint(input, parse) == Success(HostPort("::1", "8080"))
    ensures ParseTarget(input, parse) == Success("::1:8080")
    ensures ParseTargetJoined(input, parse) == Success(JoinHostPort("::1", "8080"))
  {
    NoSchemeFacts(input, "http://[::1]:8080");
    UrlResult(parse, input, "http://[::1]:8080", Url("http", "::1", "8080"), "::1:8080");
  }

  lemma UnbracketedIPv6DoesNotSplit(written: string)
    requires written == "::1:8080"
    ensures SplitHostPort(written) == None
  {
    LastIndexIs(written, ':', 3);
    assert written[..3] == "::1";
    assert ':' == written[..3][0];
  }

  lemma BracketedIPv6Splits(host: string, port: string, joined: string)
    requires host == "::1" && port == "8080" && joined == "[::1]:8080"
    ensures JoinHostPort(host, port) == joined
    ensures SplitHostPort(joined) == Some(HostPort(host, port))
  {
    assert ':' in host by { assert host[0] == ':'; }
    assert JoinHostPort(host, port) == joined;
    SplitJoinRoundTrip(host, port);
  }
}
