/** The parts of the proxy server (internal/proxy/server.go) that decide something:
    `Start`'s search for a port to listen on, and the one-line summary
    `handleConnection` logs for each proxied connection. */
module Server {
  import opened Wrappers
  import opened State
  import opened Strings
  import opened Sniffer

  // ----- Start: binding a port -----

  /** How many consecutive ports `Start` tries. */
  const MaxRetries: nat := 10

  const NoPortError: string := "failed to find available port after 10 attempts"

  /** The first port of the window [initialPort, initialPort + 10) that can be bound. */
  predicate FirstFree(initialPort: int, free: set<int>, port: int) {
    && initialPort <= port < initialPort + MaxRetries
    && port in free
    && forall p :: initialPort <= p < port ==> p !in free
  }

  /** The retry loop of `Start`. `free` holds the ports `net.Listen` can bind; `tried`
      is the sequence of ports attempted, each failure being logged. */
  method BindPort(initialPort: int, free: set<int>) returns (bound: Option<int>, tried: seq<int>)
    ensures 1 <= |tried| <= MaxRetries
    ensures forall i :: 0 <= i < |tried| ==> tried[i] == initialPort + i
    ensures forall i :: 0 <= i < |tried| - 1 ==> tried[i] !in free
    ensures bound.Some? ==> bound.value == tried[|tried| - 1] && FirstFree(initialPort, free, bound.value)
    ensures bound.None? <==> forall p :: initialPort <= p < initialPort + MaxRetries ==> p !in free
    ensures bound.None? ==> |tried| == MaxRetries
  {
    tried := [];
    bound := None;
    var i := 0;
    while i < MaxRetries
      invariant 0 <= i <= MaxRetries && |tried| == i
      invariant forall j :: 0 <= j < i ==> tried[j] == initialPort + j
      invariant forall j :: 0 <= j < i ==> tried[j] !in free
    {
      var port := initialPort + i;
      tried := tried + [port];
      if port in free {
        bound := Some(port);
        forall p | initialPort <= p < port
          ensures p !in free
        {
          assert tried[p - initialPort] == p;
        }
        return;
      }
      i := i + 1;
    }
    forall p | initialPort <= p < initialPort + MaxRetries
      ensures p !in free
    {
      assert tried[p - initialPort] == p;
    }
  }

  /** `Start` up to the accept loop: binds the first free port of the window and records
      it with `SetPort`, or fails without touching the state. */
  method Start(state: HavocState, free: set<int>) returns (err: Option<string>)
    requires state.Valid()
    modifies state
    ensures state.Valid() && state.chaos == old(state.chaos)
    ensures err.Some? ==> err == Some(NoPortError) && state.connection == old(state.connection)
    ensures err.Some? <==> forall p :: old(state.connection.port) <= p < old(state.connection.port) + MaxRetries ==> p !in free
    ensures err.None? ==>
      && state.connection.target == old(state.connection.target)
      && FirstFree(old(state.connection.port), free, state.connection.port)
  {
    var connection := state.GetConnection();
    var bound, _ := BindPort(connection.port, free);
    if bound.None? {
      return Some(NoPortError);
    }
    state.SetPort(bound.value);
    err := None;
  }

  /** The first free port is unique: `Start` has only one possible answer. */
  lemma FirstFreeIsUnique(initialPort: int, free: set<int>, p: int, q: int)
    requires FirstFree(initialPort, free, p) && FirstFree(initialPort, free, q)
    ensures p == q
  {
    assert !(p < q) && !(q < p);
  }

  // ----- handleConnection: the summary line -----

  /** A value the sniffer did not capture is shown as "???". */
  function Shown(sniffed: string): (r: string)
    ensures r != []
    ensures sniffed != [] ==> r == sniffed
    ensures sniffed == [] ==> r == "???"
  {
    if sniffed == "" then "???" else sniffed
  }

  /** lipgloss colours, as ANSI 256-colour codes. */
  const Pink: string := "205"
  const Blue: string := "39"
  const Red: string := "196"
  const Green: string := "46"
  const Yellow: string := "226"

  /** The colour of the method: the switch in `handleConnection`. */
  function MethodColor(verb: string): (r: string)
    ensures r == Pink || r == Blue || r == Red
    ensures verb == "GET" ==> r == Pink
  {
    match verb
    case "GET" => Pink
    case "POST" => Blue
    case "PUT" => Blue
    case "PATCH" => Blue
    case "DELETE" => Red
    case _ => Pink
  }

  /** Methods that change a resource are blue, DELETE red, and everything else (GET,
      HEAD, the "???" placeholder) pink. */
  lemma MethodColorClasses(verb: string)
    ensures MethodColor(verb) == Blue <==> verb in {"POST", "PUT", "PATCH"}
    ensures MethodColor(verb) == Red <==> verb == "DELETE"
    ensures MethodColor(verb) == Pink <==> verb !in {"POST", "PUT", "PATCH", "DELETE"}
  {
  }

  /** The colour of the status, as written: the whole status string is compared with
      the one-character strings "1" to "5". */
  function StatusColor(status: string): (r: string)
    ensures r == Pink || r == Green || r == Yellow || r == Red
    ensures r != Green ==> |status| == 1
  {
    match status
    case "1" => Pink
    case "2" => Green
    case "3" => Yellow
    case "4" => Yellow
    case "5" => Red
    case _ => Green
  }

  /** As written, every status longer than one character is green: a sniffed status is
      a three-digit code, so the 1xx, 3xx, 4xx and 5xx colours are never used. */
  lemma WholeStatusIsAlwaysGreen(status: string)
    requires |status| != 1
    ensures StatusColor(status) == Green
  {
    assert status !in {"1", "2", "3", "4", "5"};
  }

  lemma NotFoundShownGreen()
    ensures StatusColor("404") == Green && StatusColor("500") == Green
  {
    WholeStatusIsAlwaysGreen("404");
    WholeStatusIsAlwaysGreen("500");
  }

  /** The evidently intended colour: by the class of the status code, its first digit
      (section 15 of RFC 9110), put through the as-written switch. */
  function StatusClassColor(status: string): (r: string)
    ensures status != [] && status[0] == '1' ==> r == Pink
    ensures status != [] && status[0] == '2' ==> r == Green
    ensures status != [] && (status[0] == '3' || status[0] == '4') ==> r == Yellow
    ensures status != [] && status[0] == '5' ==> r == Red
    ensures status == [] || !('1' <= status[0] <= '5') ==> r == Green
  {
    if status == [] then StatusColor(status) else StatusColor([status[0]])
  }

  /** The correction changes nothing where the as-written switch already sees a
      class: on a one-character status the two colourings agree, and a longer code
      gets the as-written colour of its class digit. */
  lemma StatusClassColorByClass(status: string)
    ensures |status| == 1 ==> StatusClassColor(status) == StatusColor(status)
    ensures status != [] ==> StatusClassColor(status) == StatusColor(status[..1])
  {
    if status != [] {
      assert status[..1] == [status[0]];
      if |status| == 1 {
        assert status == [status[0]];
      }
    }
  }

  lemma CorrectedNotFoundColors()
    ensures StatusClassColor("404") == Yellow && StatusClassColor("500") == Red
    ensures StatusClassColor("200") == Green && StatusClassColor("101") == Pink
  {
    assert "404"[0] == '4' && "500"[0] == '5' && "200"[0] == '2' && "101"[0] == '1';
  }

  /** What `handleConnection` logs once the target-to-client relay returns: the client
      sniffer's method and path, the target sniffer's status, and their colours. */
  datatype Summary = Summary(verb: string, path: string, status: string, verbColor: string, statusColor: string)

  function Summarize(client: SniffState, target: SniffState): (r: Summary)
    ensures client.verb != [] ==> r.verb == client.verb
    ensures client.verb == [] ==> r.verb == "???"
    ensures target.status != [] ==> r.status == target.status
    ensures target.status == [] ==> r.status == "???"
    ensures r.path == client.path
    ensures r.verbColor == MethodColor(r.verb) && r.statusColor == StatusColor(r.status)
    ensures r.verbColor in {Pink, Blue, Red} && r.statusColor in {Pink, Green, Yellow, Red}
  {
    var verb := Shown(client.verb);
    var status := Shown(target.status);
    Summary(verb, client.path, status, MethodColor(verb), StatusColor(status))
  }

  /** A connection whose client sent a GET for /foo and whose target answered 404 is
      summarised as GET /foo 404, with the 404 in green. */
  lemma NotFoundSummary(request: seq<byte>, response: seq<byte>)
    requires request == "GET /foo HTTP/1.1\r\nHost: a\r\n"
    requires response == "HTTP/1.1 404 Not Found\r\n"
    ensures Summarize(Observe(Fresh(true), request), Observe(Fresh(false), response))
         == Summary("GET", "/foo", "404", Pink, Green)
  {
    RequestLineExample(request);
    StatusLineExample(response);
    NotFoundShownGreen();
  }

  /** Nothing sniffed on either side: both shown as "???", pink and green. */
  lemma UncapturedSummary(client: SniffState, target: SniffState)
    requires client.verb == "" && target.status == ""
    ensures Summarize(client, target) == Summary("???", client.path, "???", Pink, Green)
  {
    WholeStatusIsAlwaysGreen("???");
  }
}
