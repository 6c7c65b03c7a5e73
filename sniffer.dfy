/** The protocol sniffer (internal/proxy/sniffer.go): a decorator around a
    connection that, as a side effect of each read, accumulates the first bytes of
    the stream until it can take the method and path of an HTTP request line
    (section 3 of RFC 9112) or the status code of a status line (section 4 of
    RFC 9112), and gives up after 4096 bytes without a newline. */
module Sniffer {
  import opened Wrappers
  import opened Strings
  import opened Io

  /** Past this many buffered bytes with no newline, the sniffer gives up. */
  const GiveUpLength: nat := 4096

  /** The sniffer's fields as a value. */
  datatype SniffState = SniffState(
    buffer: seq<byte>,
    captured: bool,
    verb: string,
    path: string,
    status: string,
    isRequest: bool)

  /** `NewSniffer`: nothing captured, nothing buffered, the direction fixed. */
  function Fresh(isRequest: bool): SniffState {
    SniffState([], false, "", "", "", isRequest)
  }

  /** What `Read` does to the sniffer once the wrapped read has produced `chunk`:
      a non-empty chunk read before capture is appended and the buffer examined. */
  function Observe(s: SniffState, chunk: seq<byte>): (r: SniffState)
    ensures r.isRequest == s.isRequest
    ensures s.captured ==> r == s
    ensures !s.captured && r.captured ==> r.buffer == []
    ensures !r.captured ==> r == s.(buffer := s.buffer + chunk)
    ensures |chunk| == 0 ==> r == s
    ensures s.isRequest ==> r.status == s.status
    ensures !s.isRequest ==> r.verb == s.verb && r.path == s.path
  {
    if s.captured then s
    else if |chunk| == 0 then
      assert s.buffer + chunk == s.buffer;
      s
    else Examine(s.(buffer := s.buffer + chunk))
  }

  /** The look at the buffered bytes: with a complete first line of at least two
      fields, capture and free the buffer; with no newline beyond 4096 bytes, give up;
      otherwise keep waiting. */
  function Examine(s: SniffState): (r: SniffState)
    ensures r.isRequest == s.isRequest
    ensures !s.captured && r.captured ==> r.buffer == []
    ensures !r.captured ==> r == s
    ensures s.isRequest ==> r.status == s.status
    ensures !s.isRequest ==> r.verb == s.verb && r.path == s.path
  {
    match IndexOf(s.buffer, '\n')
    case Some(i) =>
      var parts := Fields(s.buffer[..i]);
      if |parts| >= 2 then
        if s.isRequest then s.(verb := parts[0], path := parts[1], captured := true, buffer := [])
        else s.(status := parts[1], captured := true, buffer := [])
      else s
    case None =>
      if |s.buffer| > GiveUpLength then s.(captured := true, buffer := []) else s
  }

  /** The sniffer after a sequence of reads. */
  function ObserveAll(s: SniffState, chunks: seq<seq<byte>>): SniffState
    decreases |chunks|
  {
    if chunks == [] then s else ObserveAll(Observe(s, chunks[0]), chunks[1..])
  }

  /** The memory bound the sniffer keeps: while it is still looking for the end of
      the first line, it holds at most 4096 bytes. */
  predicate BufferBounded(s: SniffState) {
    !s.captured && '\n' !in s.buffer ==> |s.buffer| <= GiveUpLength
  }

  // ----- what a read does -----

  /** Every read keeps the bound, and the direction never changes. */
  lemma ObserveKeepsBound(s: SniffState, chunk: seq<byte>)
    requires BufferBounded(s)
    ensures BufferBounded(Observe(s, chunk))
    ensures Observe(s, chunk).isRequest == s.isRequest
  {
  }

  /** Once captured, the sniffer is frozen: method, path and status are written once. */
  lemma {:induction false} CapturedIsFinal(s: SniffState, chunks: seq<seq<byte>>)
    requires s.captured
    ensures ObserveAll(s, chunks) == s
    decreases |chunks|
  {
    if chunks != [] {
      CapturedIsFinal(s, chunks[1..]);
    }
  }

  /** After any sequence of reads: the direction is unchanged, a request sniffer never
      sets a status, a response sniffer never sets a method or a path, and whatever
      was captured by an earlier prefix of the reads stays as it was. */
  lemma {:induction false} DirectionDecidesFields(s: SniffState, chunks: seq<seq<byte>>)
    requires BufferBounded(s)
    ensures var r := ObserveAll(s, chunks);
      && r.isRequest == s.isRequest
      && (s.isRequest ==> r.status == s.status)
      && (!s.isRequest ==> r.verb == s.verb && r.path == s.path)
      && BufferBounded(r)
      && (s.captured ==> r == s)
    decreases |chunks|
  {
    if chunks == [] {
    } else {
      ObserveKeepsBound(s, chunks[0]);
      DirectionDecidesFields(Observe(s, chunks[0]), chunks[1..]);
      if s.captured {
        CapturedIsFinal(s, chunks);
      }
    }
  }

  /** A first line whose first two fields are `a` and `b`: optional leading white
      space, `a`, a run of white space, `b`, and a tail that is empty or starts with
      white space. It holds no newline, as it ends at the first one. */
  predicate TwoFieldLine(line: string, lead: string, a: string, sep: string, b: string, rest: string) {
    TwoFields(line, lead, a, sep, b, rest) && '\n' !in line
  }

  /** `line` is `lead`, `a`, `sep`, `b`, `rest`, with white space exactly where
      `strings.Fields` needs it to see `a` and `b` as its first two fields. */
  predicate TwoFields(line: string, lead: string, a: string, sep: string, b: string, rest: string) {
    && AllSpace(lead) && a != [] && HasNoSpace(a)
    && sep != [] && AllSpace(sep) && b != [] && HasNoSpace(b)
    && (rest == [] || IsAsciiSpace(rest[0]))
    && line == lead + a + sep + b + rest
  }

  /** On such a line, `Fields` yields `a` and `b` first. */
  lemma LineStartsWithTwoFields(line: string, lead: string, a: string, sep: string, b: string, rest: string)
    requires TwoFields(line, lead, a, sep, b, rest)
    ensures |Fields(line)| >= 2 && Fields(line)[0] == a && Fields(line)[1] == b
  {
    var fs := Fields(a + (sep + (b + rest)));
    assert Fields(line) == fs by {
      LeadingSpaceSkipped(lead, a, sep, b, rest);
    }
    assert fs == [a] + ([b] + Fields(rest)) by {
      FirstTwoWords(a, sep, b, rest);
    }
    FirstTwoOf(fs, a, b, Fields(rest));
  }

  lemma FirstTwoOf(fs: seq<string>, a: string, b: string, tail: seq<string>)
    requires fs == [a] + ([b] + tail)
    ensures |fs| >= 2 && fs[0] == a && fs[1] == b
  {
  }

  lemma LeadingSpaceSkipped(lead: string, a: string, sep: string, b: string, rest: string)
    requires AllSpace(lead)
    ensures Fields(lead + a + sep + b + rest) == Fields(a + (sep + (b + rest)))
  {
    Regroup(lead, a, sep, b, rest);
    FieldsAfterSpaces(lead, a + (sep + (b + rest)));
  }

  lemma FirstTwoWords(a: string, sep: string, b: string, rest: string)
    requires a != [] && HasNoSpace(a) && sep != [] && AllSpace(sep) && b != [] && HasNoSpace(b)
    requires rest == [] || IsAsciiSpace(rest[0])
    ensures Fields(a + (sep + (b + rest))) == [a] + ([b] + Fields(rest))
  {
    FirstWordThenSpace(a, sep, b + rest);
    SecondWord(sep, b, rest);
  }

  lemma Regroup(lead: string, a: string, sep: string, b: string, rest: string)
    ensures lead + a + sep + b + rest == lead + (a + (sep + (b + rest)))
  {
  }

  lemma SecondWord(sep: string, b: string, rest: string)
    requires AllSpace(sep) && b != [] && HasNoSpace(b) && (rest == [] || IsAsciiSpace(rest[0]))
    ensures Fields(sep + (b + rest)) == [b] + Fields(rest)
  {
    FieldsAfterSpaces(sep, b + rest);
    FieldsOfWord(b, rest);
  }

  lemma FirstWordThenSpace(a: string, sep: string, tail: string)
    requires a != [] && HasNoSpace(a) && sep != [] && AllSpace(sep)
    ensures Fields(a + (sep + tail)) == [a] + Fields(sep + tail)
  {
    assert IsAsciiSpace((sep + tail)[0]);
    FieldsOfWord(a, sep + tail);
  }

  /** The read that completes a first line with fields `a` and `b` (earlier reads
      having buffered the start of it, with no newline yet): a request sniffer takes
      `a` as the method and `b` as the path, a response sniffer takes `b` as the
      status, and either one is then captured with an empty buffer; nothing else
      changes. */
  lemma FirstLineCaptured(
    s: SniffState, line: string, lead: string, a: string, sep: string, b: string, rest: string,
    more: seq<byte>, chunk: seq<byte>)
    requires !s.captured && '\n' !in s.buffer
    requires TwoFieldLine(line, lead, a, sep, b, rest)
    requires s.buffer + chunk == line + "\n" + more
    ensures var r := Observe(s, chunk);
      && r.captured && r.buffer == [] && r.isRequest == s.isRequest
      && (s.isRequest ==> r.verb == a && r.path == b && r.status == s.status)
      && (!s.isRequest ==> r.status == b && r.verb == s.verb && r.path == s.path)
  {
    var data := s.buffer + chunk;
    var k := |line|;
    assert data[..k] == line;
    assert data[k] == '\n';
    IndexOfIs(data, '\n', k);
    LineStartsWithTwoFields(line, lead, a, sep, b, rest);
  }

  /** A read that brings no newline and stays within 4096 bytes is only buffered. */
  lemma StillWaiting(s: SniffState, c: seq<byte>)
    requires !s.captured && '\n' !in s.buffer + c && |s.buffer + c| <= GiveUpLength
    ensures Observe(s, c) == s.(buffer := s.buffer + c)
  {
    if |c| != 0 {
      assert IndexOf(s.buffer + c, '\n') == None;
    } else {
      assert s.buffer + c == s.buffer;
    }
  }

  /** A first line with fields `a` and `b`, of at most 4096 bytes, arriving over any
      number of reads however the stream is cut into chunks, is captured as by a
      single read. */
  lemma {:induction false} FirstLineCapturedOverReads(
    s: SniffState, line: string, lead: string, a: string, sep: string, b: string, rest: string,
    more: seq<byte>, chunks: seq<seq<byte>>)
    requires !s.captured && '\n' !in s.buffer
    requires TwoFieldLine(line, lead, a, sep, b, rest)
    requires |line| <= GiveUpLength
    requires s.buffer + Concat(chunks) == line + "\n" + more
    ensures var r := ObserveAll(s, chunks);
      && r.captured && r.buffer == [] && r.isRequest == s.isRequest
      && (s.isRequest ==> r.verb == a && r.path == b && r.status == s.status)
      && (!s.isRequest ==> r.status == b && r.verb == s.verb && r.path == s.path)
    decreases |chunks|
  {
    var all := line + "\n" + more;
    assert all[|line|] == '\n';
    assert forall j :: 0 <= j < |line| ==> all[j] == line[j];
    // the newline lies beyond what is already buffered, so some chunk is still to come
    assert forall j :: 0 <= j < |s.buffer| ==> s.buffer[j] == all[j];
    assert |s.buffer| <= |line| < |all|;
    var c := chunks[0];
    ConcatAfter(s.buffer, chunks);
    var data := s.buffer + c;
    assert data == all[..|data|];
    if '\n' in data {
      var i :| 0 <= i < |data| && data[i] == '\n';
      assert |line| <= i;
      var more' := data[|line| + 1..];
      assert data == line + "\n" + more';
      FirstLineCaptured(s, line, lead, a, sep, b, rest, more', c);
      CapturedIsFinal(Observe(s, c), chunks[1..]);
    } else {
      assert forall j :: 0 <= j < |data| ==> data[j] == all[j];
      assert |data| <= |line|;
      StillWaiting(s, c);
      var t := Observe(s, c);
      assert s.buffer + Concat(chunks) == t.buffer + Concat(chunks[1..]);
      FirstLineCapturedOverReads(t, line, lead, a, sep, b, rest, more, chunks[1..]);
    }
  }

  /** A request line that follows the request-line grammar of section 3 of RFC 9112,
      a GET for /foo: the request sniffer takes GET and /foo. */
  lemma RequestLineExample(chunk: seq<byte>)
    requires chunk == "GET /foo HTTP/1.1\r\nHost: a\r\n"
    ensures var r := Observe(Fresh(true), chunk);
      r.captured && r.verb == "GET" && r.path == "/foo" && r.status == "" && r.buffer == []
  {
    RequestLineParts(chunk);
    FirstLineCaptured(Fresh(true), "GET /foo HTTP/1.1\r", "", "GET", " ", "/foo", " HTTP/1.1\r", "Host: a\r\n", chunk);
  }

  lemma RequestLineParts(chunk: seq<byte>)
    requires chunk == "GET /foo HTTP/1.1\r\nHost: a\r\n"
    ensures TwoFieldLine("GET /foo HTTP/1.1\r", "", "GET", " ", "/foo", " HTTP/1.1\r")
    ensures chunk == "GET /foo HTTP/1.1\r" + "\n" + "Host: a\r\n"
  {
    RequestLineSpelling(chunk);
  }

  lemma RequestLineSpelling(chunk: seq<byte>)
    requires chunk == "GET /foo HTTP/1.1\r\nHost: a\r\n"
    ensures "GET /foo HTTP/1.1\r" == "" + "GET" + " " + "/foo" + " HTTP/1.1\r"
    ensures chunk == "GET /foo HTTP/1.1\r" + "\n" + "Host: a\r\n"
  {
  }

  /** `strings.Fields` splits on any run of white space: a request line with a
      leading space and a tab and a space between method and path still gives GET
      and /foo. */
  lemma SpacedRequestLineExample(chunk: seq<byte>)
    requires chunk == " GET\t /foo\r\n"
    ensures var r := Observe(Fresh(true), chunk);
      r.captured && r.verb == "GET" && r.path == "/foo" && r.buffer == []
  {
    SpacedRequestLineParts(chunk);
    FirstLineCaptured(Fresh(true), " GET\t /foo\r", " ", "GET", "\t ", "/foo", "\r", "", chunk);
  }

  lemma SpacedRequestLineParts(chunk: seq<byte>)
    requires chunk == " GET\t /foo\r\n"
    ensures TwoFieldLine(" GET\t /foo\r", " ", "GET", "\t ", "/foo", "\r")
    ensures chunk == " GET\t /foo\r" + "\n" + ""
  {
    assert " GET\t /foo\r" == " " + "GET" + "\t " + "/foo" + "\r";
  }

  /** A status line that follows the status-line grammar of section 4 of RFC 9112,
      a 404 response: the response sniffer takes 404. */
  lemma StatusLineExample(chunk: seq<byte>)
    requires chunk == "HTTP/1.1 404 Not Found\r\n"
    ensures var r := Observe(Fresh(false), chunk);
      r.captured && r.status == "404" && r.verb == "" && r.path == "" && r.buffer == []
  {
    StatusLineParts(chunk);
    FirstLineCaptured(Fresh(false), "HTTP/1.1 404 Not Found\r", "", "HTTP/1.1", " ", "404", " Not Found\r", "", chunk);
  }

  lemma StatusLineParts(chunk: seq<byte>)
    requires chunk == "HTTP/1.1 404 Not Found\r\n"
    ensures TwoFieldLine("HTTP/1.1 404 Not Found\r", "", "HTTP/1.1", " ", "404", " Not Found\r")
    ensures chunk == "HTTP/1.1 404 Not Found\r" + "\n" + ""
  {
    StatusLineSpelling(chunk);
  }

  lemma StatusLineSpelling(chunk: seq<byte>)
    requires chunk == "HTTP/1.1 404 Not Found\r\n"
    ensures "HTTP/1.1 404 Not Found\r" == "" + "HTTP/1.1" + " " + "404" + " Not Found\r"
    ensures chunk == "HTTP/1.1 404 Not Found\r" + "\n" + ""
  {
  }

  /** With no newline anywhere in what is read, the sniffer buffers everything until
      more than 4096 bytes have arrived, and then gives up without capturing anything. */
  lemma {:induction false} NoNewlineGivesUp(s: SniffState, chunks: seq<seq<byte>>)
    requires !s.captured && |s.buffer| <= GiveUpLength
    requires '\n' !in s.buffer + Concat(chunks)
    ensures ObserveAll(s, chunks)
         == if |s.buffer + Concat(chunks)| > GiveUpLength then s.(captured := true, buffer := [])
            else s.(buffer := s.buffer + Concat(chunks))
    decreases |chunks|
  {
    if chunks == [] {
      assert s.buffer + Concat(chunks) == s.buffer;
    } else {
      var c := chunks[0];
      var all := s.buffer + Concat(chunks);
      ConcatAfter(s.buffer, chunks);
      assert '\n' !in s.buffer + c by {
        assert forall x :: x in s.buffer + c ==> x in all;
      }
      if |c| == 0 {
        assert s.buffer + c == s.buffer;
        NoNewlineGivesUp(s, chunks[1..]);
      } else {
        var t := Observe(s, c);
        if |s.buffer + c| > GiveUpLength {
          CapturedIsFinal(t, chunks[1..]);
        } else {
          NoNewlineGivesUp(t, chunks[1..]);
        }
      }
    }
  }

  // ----- a first line with fewer than two fields -----

  /** One read after a first line with fewer than two fields: appended, nothing else. */
  lemma ShortFirstLineStep(s: SniffState, c: seq<byte>, i: nat)
    requires !s.captured
    requires IndexOf(s.buffer, '\n') == Some(i) && |Fields(s.buffer[..i])| < 2
    ensures Observe(s, c) == s.(buffer := s.buffer + c)
    ensures IndexOf(s.buffer + c, '\n') == Some(i)
    ensures |Fields((s.buffer + c)[..i])| < 2
  {
    var data := s.buffer + c;
    IndexOfIs(data, '\n', i);
    assert data[..i] == s.buffer[..i];
    if |c| == 0 {
      assert data == s.buffer;
    }
  }

  /** As written, a first line with fewer than two fields (an empty line, a single
      word) is never captured, and the 4096-byte limit no longer applies: every later
      read is appended to the buffer, without bound. */
  lemma {:induction false} ShortFirstLineBuffersForever(s: SniffState, chunks: seq<seq<byte>>, i: nat)
    requires !s.captured
    requires IndexOf(s.buffer, '\n') == Some(i) && |Fields(s.buffer[..i])| < 2
    ensures ObserveAll(s, chunks) == s.(buffer := s.buffer + Concat(chunks))
    decreases |chunks|
  {
    if chunks == [] {
      assert s.buffer + Concat(chunks) == s.buffer;
    } else {
      var c := chunks[0];
      ShortFirstLineStep(s, c, i);
      var t := s.(buffer := s.buffer + c);
      ShortFirstLineBuffersForever(t, chunks[1..], i);
      ConcatAfter(s.buffer, chunks);
    }
  }

  /** An empty first line followed by 5000 bytes: the as-written sniffer holds all
      5001 bytes and is still not captured. */
  lemma EmptyFirstLineExceedsLimit(big: seq<byte>)
    requires |big| == 5000
    ensures var r := ObserveAll(Fresh(true), [['\n'], big]);
      !r.captured && |r.buffer| == 5001 > GiveUpLength
  {
    var nl: seq<byte> := ['\n'];
    var t := EmptyLineBuffered(nl);
    ShortFirstLineBuffersForever(t, [big], 0);
    assert [nl, big][1..] == [big];
    assert Concat([big]) == big;
  }

  /** A lone newline, read by a fresh request sniffer, is only buffered. */
  lemma EmptyLineBuffered(nl: seq<byte>) returns (t: SniffState)
    requires nl == ['\n']
    ensures t == Fresh(true).(buffer := nl) && Observe(Fresh(true), nl) == t
    ensures !t.captured && IndexOf(t.buffer, '\n') == Some(0) && |Fields(t.buffer[..0])| < 2
  {
    IndexOfIs(nl, '\n', 0);
    assert Fields(nl[..0]) == [];
    t := Fresh(true).(buffer := nl);
  }

  /** The evidently intended reading: once the first line is complete the sniffer is
      done, whether or not it found two fields in it. */
  function ObserveBounded(s: SniffState, chunk: seq<byte>): SniffState {
    var r := Observe(s, chunk);
    if !r.captured && '\n' in r.buffer then r.(captured := true, buffer := []) else r
  }

  function ObserveAllBounded(s: SniffState, chunks: seq<seq<byte>>): SniffState
    decreases |chunks|
  {
    if chunks == [] then s else ObserveAllBounded(ObserveBounded(s, chunks[0]), chunks[1..])
  }

  /** A sniffer that has given up or captured holds nothing; one still looking holds
      no newline and at most 4096 bytes. */
  predicate Tidy(s: SniffState) {
    && (s.captured ==> s.buffer == [])
    && (!s.captured ==> '\n' !in s.buffer && |s.buffer| <= GiveUpLength)
  }

  /** The corrected sniffer never holds more than 4096 bytes, whatever it reads. */
  lemma {:induction false} BoundedSnifferStaysTidy(s: SniffState, chunks: seq<seq<byte>>)
    requires Tidy(s)
    ensures Tidy(ObserveAllBounded(s, chunks))
    ensures |ObserveAllBounded(s, chunks).buffer| <= GiveUpLength
    decreases |chunks|
  {
    if chunks != [] {
      BoundedSnifferStaysTidy(ObserveBounded(s, chunks[0]), chunks[1..]);
    }
  }

  /** The correction changes nothing except where the first line has fewer than two fields. */
  lemma ObserveBoundedAgrees(s: SniffState, chunk: seq<byte>)
    requires Tidy(s)
    requires var data := s.buffer + chunk;
      IndexOf(data, '\n').Some? ==> |Fields(data[..IndexOf(data, '\n').value])| >= 2
    ensures ObserveBounded(s, chunk) == Observe(s, chunk)
  {
  }

  /** `Sniffer`: wraps one direction of a proxied connection. The lock that guards
      its fields in Go is not modelled: the model is sequential. */
  class Sniffer {
    var buffer: seq<byte>
    var captured: bool
    var verb: string
    var path: string
    var status: string
    const isRequest: bool

    function State(): SniffState
      reads this
    {
      SniffState(buffer, captured, verb, path, status, isRequest)
    }

    ghost predicate Valid()
      reads this
    {
      BufferBounded(State())
    }

    /** `NewSniffer`. */
    constructor (isRequest: bool)
      ensures State() == Fresh(isRequest) && Valid()
    {
      this.isRequest := isRequest;
      buffer, captured := [], false;
      verb, path, status := "", "", "";
    }

    /** `Read`, after the wrapped connection's read has put `n` bytes into `p` and
        returned `err`: hands back exactly that `n` and `err`, leaves `p` alone, and
        updates the sniffer as `Observe` says. */
    method Read(p: array<byte>, n: nat, err: Option<IoError>) returns (count: nat, readErr: Option<IoError>)
      requires n <= p.Length
      requires Valid()
      modifies this
      ensures count == n && readErr == err
      ensures State() == Observe(old(State()), p[..n])
      ensures Valid()
    {
      count, readErr := n, err;
      if n > 0 {
        if !captured {
          ghost var before := State();
          buffer := buffer + p[..n];
          ghost var appended := State();
          assert Observe(before, p[..n]) == Examine(appended);
          var data := buffer;
          match IndexOf(data, '\n') {
            case Some(i) =>
              var parts := Fields(data[..i]);
              if |parts| >= 2 {
                if isRequest {
                  verb := parts[0];
                  if |parts| > 1 {
                    path := parts[1];
                  }
                } else {
                  status := parts[1];
                }
                captured := true;
                buffer := [];
              }
            case None =>
              if |buffer| > GiveUpLength {
                captured := true;
                buffer := [];
              }
          }
          assert State() == Examine(appended);
        }
      }
    }
  }
}
