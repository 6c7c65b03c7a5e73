# havoc core, modelled in Dafny

havoc is a chaos TCP proxy. It sits between a client and a target server. It forwards
the traffic in both directions, and on the way it delays it (latency plus random
jitter) and drops chunks of it at a configurable rate. While relaying, it reads the
first line of each direction to log the HTTP method, path and status of the exchange.

This project models the core of that proxy and proves properties of the model.

- `state.dfy` (module `State`): the shared runtime configuration `HavocState`.
  - It is a class whose setters update its fields in place.
  - The latency, jitter and drop-rate setters clamp their argument.
  - The value-level functions `Apply` and `Run` describe setter calls. The lemmas
    about the setters are stated over them.
- `address.dfy` (module `Address`): `ParseTarget`, which turns "8080", ":8080",
  "example.com" or "https://example.com" into "host:port".
- `sniffer.dfy` (module `Sniffer`): the sniffer wrapped around each side of a
  connection.
  - It is a class whose `Read` updates the sniffer's fields.
  - The spec function `Observe` gives the value semantics of one read.
- `relay.dfy` (module `Relay`): the `Copy` loop that reads chunks, drops some, delays
  the rest and writes them.
  - It is an imperative method over a reused 32 KiB array.
  - It is proved equal to the recursive specification `RelayFrom`.
- `server.dfy` (module `Server`): two parts of the server.
  - `Start`'s search for a free port: ten consecutive ports, the first that binds wins.
  - The summary line `handleConnection` logs: a "???" placeholder and the method and
    status colours.
- `strings.dfy`, `io.dfy` and `wrappers.dfy`: the parts of Go's `strings` package the
  core uses (`TrimSpace`, `Fields`, `Index`, `HasPrefix`, `Contains`), the result of a
  connection read, and `Option`/`Result`.

Inputs that come from outside the program are parameters:

- the URL parser;
- for each read of the relay: what the connection returned, the chaos settings
  `GetChaos` returned, the two random draws, and what the write returned;
- the set of ports that `net.Listen` can bind.

A Go byte is a Dafny `char` below 256. Byte slices, the sniffer's buffer and the lines
it splits are sequences of such characters. The target text given to `ParseTarget` is
a Dafny string of code points. A `time.Duration` is an integer count of nanoseconds
within the signed 64-bit range. A drop rate is a `real`.

The sniffer's comments give its intent: once the first line is parsed, the buffer is
freed because it is no longer needed (internal/proxy/sniffer.go:62-63), and after 4096
bytes with no newline the sniffer gives up "to save memory"
(internal/proxy/sniffer.go:65-68). The code frees the buffer only when the first line
has at least two fields, so a shorter first line leaves the buffer growing.

- The model follows the code in `Sniffer.Observe`.
- It places the memory-saving behaviour beside it as `Sniffer.ObserveBounded` (see
  Findings).

## Model

| member | source | states |
|---|---|---|
| State.Clamp | internal/state/state.go:47-73 | The stored value lies in [0, max] and is the legal value nearest to the argument. The same clamp serves the jitter (bound MaxJitter, state.go:50-56) and the latency (bound MaxLatency, state.go:64-70). |
| State.ClampRate | internal/state/state.go:75-87 | The stored drop rate lies in [0, 1] and is the legal value nearest to the argument. |
| State.ClampKeepsLegalValues | internal/state/state.go:50-56 | An in-range value is stored unchanged. A value above the maximum stores the maximum. A negative value stores 0. |
| State.Apply | internal/state/state.go:35-87 | A setter keeps in-range chaos settings in range. The port and target setters leave the chaos settings alone, and the chaos setters leave the port and target alone. |
| State.ApplyTouchesOnlyItsField | internal/state/state.go:35-87 | Each setter changes its own field and no other. The port and target setters store their argument. The chaos setters store a value in range. |
| State.ApplyIdempotent | internal/state/state.go:35-87 | Calling a setter twice with the same argument equals calling it once. |
| State.RunKeepsChaosInRange | internal/state/state.go:8-12 | From in-range chaos settings, any sequence of setter calls keeps latency in [0, 30s], jitter in [0, 10s] and drop rate in [0, 1]. |
| State.NewIsInRange | internal/state/state.go:31-33 | `New`'s state is in range, and every sequence of setters applied to it stays in range. |
| State.ConnectionSettersKeepChaos | internal/state/state.go:35-45 | Any sequence of `SetPort`/`SetTarget` calls leaves the chaos settings untouched. |
| State.HavocState.constructor | internal/state/state.go:31-33 | `New` yields zero latency, jitter, drop rate and port and an empty target, and the state is in range. |
| State.HavocState.SetPort | internal/state/state.go:35-39 | Only the port changes, to the argument. |
| State.HavocState.SetTarget | internal/state/state.go:41-45 | Only the target changes, to the argument. |
| State.HavocState.SetJitter | internal/state/state.go:47-59 | Only the jitter changes, to the clamped argument, and the range invariant is kept. |
| State.HavocState.SetLatency | internal/state/state.go:61-73 | Only the latency changes, to the argument clamped to [0, 30s], and the range invariant is kept. |
| State.HavocState.SetDropRate | internal/state/state.go:75-87 | Only the drop rate changes, to the argument clamped to [0, 1], and the range invariant is kept. |
| State.HavocState.GetChaos | internal/state/state.go:89-93 | Returns the current chaos settings, which are in range when the state is valid. |
| State.HavocState.GetConnection | internal/state/state.go:95-99 | Returns the current port and target. |
| Strings.TrimSpace | internal/proxy/address.go:13 | The result is a slice of the input that drops only white space, has none at either end, and is empty exactly when the input is all white space. |
| Strings.Fields | internal/proxy/sniffer.go:46 | Every field is non-empty and holds no white space. |
| Strings.FieldsKeepAllNonSpace | internal/proxy/sniffer.go:46 | The fields, concatenated, are the input with its white space removed, so no non-space byte is lost or reordered. |
| Strings.FieldsOfWord | internal/proxy/sniffer.go:46 | A word with no white space, followed by nothing or by white space, is a whole field: the fields are that word and then the fields of what follows. |
| Strings.FieldsAfterSpace | internal/proxy/sniffer.go:46 | A leading white-space byte never starts or extends a field. |
| Strings.FieldsAfterSpaces | internal/proxy/sniffer.go:46 | Any run of leading white space leaves the fields unchanged. |
| Strings.IndexOf | internal/proxy/sniffer.go:44 | `None` exactly when the byte is absent. Otherwise the position holds the byte and none comes before it. |
| Strings.IndexOfIs | internal/proxy/sniffer.go:44 | A position that holds the byte, with no earlier occurrence, is the answer. |
| Address.EmptyTargetIffBlank | internal/proxy/address.go:13-16 | "target cannot be empty" is returned exactly for blank input, whatever the URL parser does. |
| Address.Rules | internal/proxy/address.go:12-60 | The trimmed input is rejected with "target cannot be empty" exactly when it is empty. Every other failure starts with "invalid target format: ". Every success has a non-empty host. |
| Address.ParseTarget | internal/proxy/address.go:12-61 | Every failure is "target cannot be empty" or starts with "invalid target format: ". Every success holds a colon. |
| Address.DigitsAreLocalPort | internal/proxy/address.go:18-21 | An all-digit input p gives "localhost:" + p. |
| Address.ColonIsLocalHost | internal/proxy/address.go:23-26 | An input starting with ':' is appended to "localhost". |
| Address.LocalRulesIgnoreParser | internal/proxy/address.go:13-26 | For blank input, digits, or a leading colon, the URL parser is never consulted. |
| Address.NoSchemeParsedAsHttp | internal/proxy/address.go:32-38 | Input without "://" depends on the parser only through its answer for "http://" + input. |
| Address.ParseFailureIsReported | internal/proxy/address.go:40-42 | A parser error is returned as "invalid target format: " plus the parser's message. |
| Address.UrlDefaults | internal/proxy/address.go:44-60 | A parsed URL gives host:port. A missing port becomes 443 for https (by scheme or by input prefix) and 80 otherwise. A missing host becomes localhost. |
| Address.NoSchemeDefaultsTo80 | internal/proxy/address.go:47-54 | Input without a scheme, parsed as http with no port, gets port 80. |
| Address.HttpsPrefixHasScheme | internal/proxy/address.go:32-49 | An input that starts with "https://" always counts as having a scheme. |
| Address.SuccessIsHostColonPort | internal/proxy/address.go:12-61 | Every success is a non-empty host, a colon and a port. The port is empty only for the input ":". |
| Address.ParseTargetLosesIPv6Brackets | internal/proxy/address.go:44-60 | As written, "[::1]:8080" gives "::1:8080", which does not split back into a host and a port. The corrected join gives "[::1]:8080", which does. |
| Address.SplitJoinRoundTrip | internal/proxy/address.go:60 | A host and port joined with brackets around a colon-bearing host split back into the same host and port. |
| Address.ParseTargetJoinedReadsBack | internal/proxy/address.go:60 | When the chosen port has no colon and the host no bracket, the corrected result splits back into the host and port that the rules chose. The digit rule always meets this; the colon rule need not (see Left out). |
| Sniffer.ObserveKeepsBound | internal/proxy/sniffer.go:65-69 | While no newline has been seen, the sniffer never holds more than 4096 bytes. The direction never changes. |
| Sniffer.Observe | internal/proxy/sniffer.go:30-73 | A read never changes the direction. An empty read, or any read once captured, changes nothing. Otherwise the read either captures and frees the buffer, or only appends every byte read to the buffer, leaving method, path and status as they were. A request sniffer never sets a status, and a response sniffer never sets a method or path. |
| Sniffer.Examine | internal/proxy/sniffer.go:41-69 | Looking at the buffer either captures and frees it or changes nothing. A request sniffer can only set the method and path, and a response sniffer only the status. |
| Sniffer.CapturedIsFinal | internal/proxy/sniffer.go:36-61 | Once captured, no later read changes the sniffer. |
| Sniffer.DirectionDecidesFields | internal/proxy/sniffer.go:48-60 | Over any reads, a request sniffer never sets a status and a response sniffer never sets a method or path. The buffer bound holds and a captured sniffer stays as it is. |
| Sniffer.LineStartsWithTwoFields | internal/proxy/sniffer.go:46-48 | A line made of optional leading white space, a word a, a run of white space, a word b and a tail that is empty or starts with white space has at least two fields, the first two being a and b. |
| Sniffer.FirstLineCaptured | internal/proxy/sniffer.go:30-63 | For any uncaptured sniffer with no newline buffered, a read that completes a first line whose first two white-space-separated fields are a and b (any leading white space, any run of white space between them) makes a request sniffer take a as method and b as path, and a response sniffer take b as status. Either sniffer is then captured with its buffer freed. |
| Sniffer.FirstLineCapturedOverReads | internal/proxy/sniffer.go:30-69 | Such a first line of at most 4096 bytes, however it is cut into reads, is captured as if it came in one read: the same method and path, or status, and the buffer freed. |
| Sniffer.RequestLineExample | internal/proxy/sniffer.go:49-55 | A request line in the grammar of section 3 of RFC 9112, "GET /foo HTTP/1.1\r\n...", captures method GET and path /foo. |
| Sniffer.SpacedRequestLineExample | internal/proxy/sniffer.go:46-55 | " GET\t /foo\r\n", with a leading space and a tab and a space between the fields, also captures GET and /foo. |
| Sniffer.StatusLineExample | internal/proxy/sniffer.go:56-60 | A status line in the grammar of section 4 of RFC 9112, "HTTP/1.1 404 Not Found\r\n", captures status 404. |
| Sniffer.NoNewlineGivesUp | internal/proxy/sniffer.go:65-69 | With no newline in the stream, everything is buffered until more than 4096 bytes have arrived. Then the sniffer gives up, capturing nothing and freeing the buffer. |
| Sniffer.ShortFirstLineBuffersForever | internal/proxy/sniffer.go:44-48 | As written, once the first line has fewer than two fields, every later read is appended to the buffer and the sniffer never captures. |
| Sniffer.EmptyFirstLineExceedsLimit | internal/proxy/sniffer.go:44-69 | As written, "\n" followed by 5000 bytes leaves 5001 bytes buffered, uncaptured. |
| Sniffer.BoundedSnifferStaysTidy | internal/proxy/sniffer.go:44-69 | The corrected sniffer never holds more than 4096 bytes, whatever it reads. |
| Sniffer.ObserveBoundedAgrees | internal/proxy/sniffer.go:44-69 | The correction changes nothing except when the first line has fewer than two fields. |
| Sniffer.Sniffer.constructor | internal/proxy/sniffer.go:23-28 | `NewSniffer`: nothing captured or buffered, with the direction fixed. |
| Sniffer.Sniffer.Read | internal/proxy/sniffer.go:30-73 | Returns exactly the wrapped read's count and error, and cannot write into the caller's buffer. The sniffer moves as `Observe` says and the buffer bound is kept. |
| Relay.Receive | internal/proxy/copy.go:19 | The read's bytes land at the front of the buffer, and its count and error are returned. |
| Relay.RelayFrom | internal/proxy/copy.go:12-59 | The loop from read k on makes at least k and at most all of the reads. |
| Relay.Copy | internal/proxy/copy.go:12-59 | The loop over the reused 32 KiB buffer produces exactly the trace `RelayFrom` specifies: the writes, the result and the number of reads. |
| Relay.ForwardsExactlyKeptChunks | internal/proxy/copy.go:15-46 | The writes are exactly the non-empty, non-dropped chunks read, in read order. Each is byte for byte as read, at most 32 KiB, and delayed by its own read's settings. |
| Relay.VarianceBounds | internal/proxy/copy.go:32-35 | The jitter variance lies in [0, jitter], and is 0 without jitter. |
| Relay.DelayWithinJitter | internal/proxy/copy.go:30-39 | Each forwarded chunk waits latency plus at most jitter, exactly the latency without jitter, and never a negative time. |
| Relay.NoDropForwardsEveryChunk | internal/proxy/copy.go:25 | With drop rate 0, a read is forwarded exactly when it carried bytes. |
| Relay.FullDropForwardsNothing | internal/proxy/copy.go:25-27 | With drop rate 1 nothing is written, and only the error of an empty read can end the loop. |
| Relay.StopsAtFirstFailure | internal/proxy/copy.go:42-57 | The loop ends right after the first read that does not carry on, returning its write error, nil for EOF, or the read error. A dropped chunk's read error is skipped. |
| Relay.StopsAt | internal/proxy/copy.go:17-57 | Conversely, the first read that does not carry on is the last read made, and its `StopError` is returned. |
| Relay.WriteErrorEndsAtOnce | internal/proxy/copy.go:42-46 | A failed write returns that error at once. No further read is made, and that chunk is the last written. |
| Relay.EofReturnsNil | internal/proxy/copy.go:50-54 | The first EOF whose chunk is neither dropped nor failed makes `Copy` return nil. |
| Server.BindPort | internal/proxy/server.go:16-30 | Ports initialPort + i are tried in increasing order, at most 10. The first port that binds is chosen and nothing after it is tried. None binds exactly when the whole window is taken. |
| Server.Start | internal/proxy/server.go:13-37 | On success the port becomes the first free port of [initialPort, initialPort + 9]. Otherwise it returns "failed to find available port after 10 attempts" and the state is unchanged. The chaos settings are never touched. |
| Server.FirstFreeIsUnique | internal/proxy/server.go:22-28 | The first free port of the window is unique. |
| Server.Shown | internal/proxy/server.go:76-84 | What is shown is never empty. A captured value is shown as is, and an empty one as "???". |
| Server.MethodColor | internal/proxy/server.go:86-100 | The method colour is pink, blue or red, and GET is pink. |
| Server.StatusColor | internal/proxy/server.go:102-116 | The status colour is pink, green, yellow or red. Any colour but green needs a status of exactly one character. |
| Server.MethodColorClasses | internal/proxy/server.go:86-100 | POST, PUT and PATCH are blue. DELETE is red. Everything else, GET and "???" included, is pink. |
| Server.WholeStatusIsAlwaysGreen | internal/proxy/server.go:102-116 | As written, every status that is not one character long is green. |
| Server.NotFoundShownGreen | internal/proxy/server.go:102-116 | As written, "404" and "500" are green. |
| Server.StatusClassColor | internal/proxy/server.go:102-116 | Corrected, by the first character: 1xx pink, 2xx green, 3xx and 4xx yellow, 5xx red, and green for an empty status or any other first character. |
| Server.StatusClassColorByClass | internal/proxy/server.go:102-116 | On a one-character status the correction agrees with the as-written switch. A longer status gets the as-written colour of its first character. |
| Server.CorrectedNotFoundColors | internal/proxy/server.go:102-116 | Corrected: "404" yellow, "500" red, "200" green, "101" pink. |
| Server.Summarize | internal/proxy/server.go:76-116 | The method is the client sniffer's and the status the target sniffer's, each "???" when not captured. The path is the client's. The colours are the method switch's colour of the shown method and the status switch's colour of the shown status. |
| Server.NotFoundSummary | internal/proxy/server.go:76-116 | A GET for /foo answered by 404 is summarised as GET /foo 404, pink and green. |
| Server.UncapturedSummary | internal/proxy/server.go:76-116 | With nothing sniffed, the summary shows "???" twice, pink and green. |

## Left out

- Locking: the `sync.RWMutex` of `HavocState` and the `sync.Mutex` of `Sniffer` are not modelled. Neither are the goroutines. The model is sequential.
- Concurrent tuning: settings changed while a relay runs are modelled as one chaos snapshot per read, supplied as input to `Relay.RelayFrom`.
- `handleConnection` as a whole is not modelled: dialling the target, closing both connections, and running the two `Copy` directions, one of them unawaited.
- The accept loop of `Start` is not modelled, so `Server.Start` returns once the port is recorded.
- `time.Sleep`, `time.Now`/`time.Since` and the rounding of the duration are not modelled. A delay is only a computed value in each `Relay.Write`.
- The logger and the lipgloss rendering are not modelled, so the summary is a value, not a printed line.
- The terminal UI and the command line are not part of this model.
- `url.Parse` is not modelled: the URL parser is a parameter of `Address.ParseTarget`, and the lemmas state what they need of its answer.
- `net.Listen` is not modelled: the set of bindable ports is a parameter.
- Server.BindPort: the value of the port to bind is not checked. For initialPort 0, `net.Listen` chooses a port itself and `Start` still records 0. Ports above 65535 are simply absent from the set. The int overflow of `initialPort + i` is not modelled.
- Strings.Fields: splits on ASCII white space only. Go's `strings.Fields` also splits on multi-byte Unicode spaces in valid UTF-8, which the byte-level model does not decode.
- Strings.TrimSpace: works on the target text as a sequence of code points, as if Go had already decoded it from UTF-8. Invalid UTF-8 in the target is not modelled.
- State.ClampRate: a NaN drop rate is not modelled, because reals have no NaN.
- Relay.VarianceBounds: computed on reals, not float64. The real result is strictly below the jitter, but float rounding can reach the jitter itself. The lemma therefore states only the bound `<= jitter`, which holds for both.
- Address.ParseTargetJoinedReadsBack: does not cover a port with a colon or a host with a bracket. The colon rule passes the rest of the input on as the port, so ":a:b" gives host localhost and port "a:b". Its corrected join "localhost:a:b" does not split back, and neither does the as-written join.
- Relay.Copy: the Go loop never ends while reads keep succeeding. The model stops when its sequence of reads is used up (`Exhausted`).
- State.HavocState.GetChaos: Go returns a pointer into the shared state, read after the lock is released. The model returns a copy taken at the call.
- State.HavocState.GetConnection: returns a copy, for the same reason as `GetChaos`.

## Findings

| source | as written | input that shows it | evidently intended | confidence | as-written member | corrected member |
|---|---|---|---|---|---|---|
| internal/proxy/sniffer.go:44-69 | When the first line has fewer than two fields, the sniffer is not marked captured. The 4096-byte limit is checked only when there is no newline, so every later read is appended to the buffer. | A request stream "\n" followed by 5000 bytes leaves 5001 bytes buffered, uncaptured, and the buffer keeps growing. | Once the first line is complete the sniffer is done, as for an over-long line, so it never holds more than 4096 bytes. | not executed | Sniffer.EmptyFirstLineExceedsLimit | Sniffer.BoundedSnifferStaysTidy |
| internal/proxy/server.go:102-116 | The switch compares the whole status string with "1" to "5". | A sniffed status "404" or "500" is coloured green. | Colour by status class, the first digit: 4xx yellow, 5xx red. | not executed | Server.NotFoundShownGreen | Server.CorrectedNotFoundColors |
| internal/proxy/address.go:44-60 | The host from `u.Hostname()` has its IPv6 brackets removed, and is joined with `%s:%s`. | "[::1]:8080" becomes "::1:8080", which does not split into a host and a port. | Join as `net.JoinHostPort` does, bracketing a host that holds a colon. | not executed | Address.ParseTargetLosesIPv6Brackets | Address.ParseTargetJoinedReadsBack |
