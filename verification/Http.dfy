/** Request framing in src/protocol_http.c: http_process is handed whatever bytes have arrived so
    far and takes at most one request off their front. */
module Http {
  import opened Common

  const MAX_HEADER_SIZE := 10 * 1024

  /** strstr(buf, "\r\n\r\n"): the search ends at a NUL. */
  function FindEnd(s: string): (r: Option<nat>)
    ensures r.Some? ==> r.value + 4 <= |s|
  {
    if s == "" || s[0] == '\0' then None
    else if "\r\n\r\n" <= s then Some(0)
    else
      var r := FindEnd(s[1..]);
      if r.None? then None else Some(r.value + 1)
  }

  /** http_detect, and the same test in http_process */
  predicate HasMethod(s: string) {
    "GET " <= s || "HEAD " <= s
  }

  /** The end of the query: a space, before the line or the string ends. */
  function QueryLength(s: string): (r: Option<nat>)
    ensures r.Some? ==> r.value < |s| && s[r.value] == ' '
  {
    if s == "" || s[0] == '\0' || s[0] == '\r' || s[0] == '\n' then None
    else if s[0] == ' ' then Some(0)
    else
      var r := QueryLength(s[1..]);
      if r.None? then None else Some(r.value + 1)
  }

  /** The path before the first '?', and the arguments behind it. */
  datatype Request = Request(path: string, args: Option<string>)

  function SplitQuery(query: string): Request {
    if query == "" then Request("", None)
    else if query[0] == '?' then Request("", Some(query[1..]))
    else
      var r := SplitQuery(query[1..]);
      r.(path := [query[0]] + r.path)
  }

  /** The request line, given that all headers are there. */
  function RequestLine(s: string): Option<Request> {
    if !HasMethod(s) then None
    else
      var rest := if "GET " <= s then s[4..] else s[5..];
      if rest == "" || rest[0] != '/' || QueryLength(rest).None? then None
      else Some(SplitQuery(rest[..QueryLength(rest).value]))
  }

  /** http_process up to dispatch: more data needed, 400 Bad Request, or a request and how many
      bytes it takes. */
  datatype Frame = More | Bad | Got(request: Request, used: nat)

  function Frame1(buf: string): (f: Frame)
    ensures f.Got? ==> 0 < f.used <= |buf|
  {
    var end := FindEnd(buf);
    if end.None? then if |buf| > MAX_HEADER_SIZE then Bad else More
    else
      var r := RequestLine(buf);
      if r.None? then Bad else Got(r.value, end.value + 4)
  }

  // ---------------------------------------------------------------- the whole stream at once

  /** The requests of a stream that is all there, up to the first malformed one. */
  function Batch(stream: string): seq<Request>
    decreases |stream|
  {
    if FindEnd(stream).None? || RequestLine(stream).None? then []
    else [RequestLine(stream).value] + Batch(stream[FindEnd(stream).value + 4..])
  }

  /** No request of the stream has a header so long that all but its last byte exceed the limit. */
  predicate WithinLimit(stream: string)
    decreases |stream|
  {
    FindEnd(stream).None? || RequestLine(stream).None?
    || (FindEnd(stream).value + 3 <= MAX_HEADER_SIZE && WithinLimit(stream[FindEnd(stream).value + 4..]))
  }

  // ---------------------------------------------------------------- a complete header is stable

  lemma StartsWithMore(s: string, more: string, what: string)
    requires |what| <= |s|
    ensures what <= s + more <==> what <= s
  {
    assert (s + more)[..|what|] == s[..|what|];
  }

  /** Once the end of the headers has arrived, it is found at the same place ever after. */
  lemma {:induction false} FindEndStable(s: string, more: string)
    requires FindEnd(s).Some?
    ensures FindEnd(s + more) == FindEnd(s)
    decreases |s|
  {
    StartsWithMore(s, more, "\r\n\r\n");
    if !("\r\n\r\n" <= s) {
      assert (s + more)[1..] == s[1..] + more;
      FindEndStable(s[1..], more);
    }
  }

  /** The line terminator stops the search for the query's end. */
  lemma {:induction false} QueryLengthStable(s: string, more: string)
    requires FindEnd(s).Some?
    ensures QueryLength(s + more) == QueryLength(s)
    decreases |s|
  {
    assert (s + more)[0] == s[0];
    if "\r\n\r\n" <= s {
    } else {
      assert (s + more)[1..] == s[1..] + more;
      QueryLengthStable(s[1..], more);
    }
  }

  /** Dropping bytes that are no part of the terminator. */
  lemma {:induction false} FindEndDrop(s: string, k: nat)
    requires FindEnd(s).Some? && k <= FindEnd(s).value
    ensures FindEnd(s[k..]).Some?
    decreases k
  {
    if k == 0 {
      assert s[0..] == s;
    } else {
      FindEndDrop(s[1..], k - 1);
      assert s[1..][k - 1..] == s[k..];
    }
  }

  /** The terminator does not begin inside text without '\r'. */
  lemma {:induction false} EndBehind(s: string, k: nat)
    requires FindEnd(s).Some? && k <= |s| && '\r' !in s[..k]
    ensures k <= FindEnd(s).value
    decreases k
  {
    if k > 0 {
      assert s[0] == s[..k][0] && s[0] in s[..k];
      assert s[1..][..k - 1] == s[..k][1..];
      EndBehind(s[1..], k - 1);
    }
  }

  lemma {:induction false} MethodStable(s: string, more: string)
    requires FindEnd(s).Some?
    ensures "GET " <= s + more <==> "GET " <= s
    ensures "HEAD " <= s + more <==> "HEAD " <= s
  {
    if |s| >= 5 {
      StartsWithMore(s, more, "GET ");
      StartsWithMore(s, more, "HEAD ");
    } else {
      assert FindEnd(s) == Some(0) && s[0] == '\r';
      assert (s + more)[0] == '\r';
    }
  }

  lemma DropConcat(s: string, more: string, k: nat)
    requires k < |s|
    ensures (s + more)[k..] == s[k..] + more && (s + more)[k..][0] == s[k..][0]
  {
  }

  /** The part of the request line behind the method, `k` bytes long. */
  lemma {:induction false} RestStable(s: string, more: string, k: nat)
    requires FindEnd(s).Some? && k <= |s| && '\r' !in s[..k]
    ensures k < |s| && (s + more)[k..] == s[k..] + more && (s + more)[k..][0] == s[k..][0]
    ensures QueryLength(s[k..] + more) == QueryLength(s[k..])
  {
    EndBehind(s, k);
    FindEndDrop(s, k);
    DropConcat(s, more, k);
    QueryLengthStable(s[k..], more);
  }

  /** Once all headers have arrived, the request read from them never changes. */
  lemma {:induction false} RequestLineStable(s: string, more: string)
    requires FindEnd(s).Some?
    ensures RequestLine(s + more) == RequestLine(s)
  {
    MethodStable(s, more);
    if HasMethod(s) {
      var k := if "GET " <= s then 4 else 5;
      assert '\r' !in s[..k] by {
        assert s[..k] == "GET " || s[..k] == "HEAD ";
      }
      RestStable(s, more, k);
      var n := QueryLength(s[k..]);
      if n.Some? {
        assert (s[k..] + more)[..n.value] == s[k..][..n.value];
      }
    }
  }

  /** More bytes do not change a request that is complete, nor where it ends. */
  lemma GotStable(s: string, more: string)
    requires Frame1(s).Got?
    ensures Frame1(s + more) == Frame1(s)
    ensures (s + more)[Frame1(s).used..] == s[Frame1(s).used..] + more
  {
    FindEndStable(s, more);
    RequestLineStable(s, more);
  }

  // ---------------------------------------------------------------- chunks

  /** A connection: what has been read and not yet taken, the requests handed to dispatch, whether
      the protocol has been detected, and whether the client is still there. */
  datatype Conn = Conn(inbuf: string, dispatched: seq<Request>, detected: bool, live: bool)

  const CONNECTED := Conn("", [], false, true)

  /** What the rest of a call of client_process depends on: whether it fails before the protocol
      is asked (reading, writing, a finished task's callback), and whether the handler of the
      request fails. */
  datatype Outcome = Outcome(failsBefore: bool, handlerFails: bool)

  /** One call of client_process that has read `chunk`. */
  function Process(c: Conn, chunk: string, o: Outcome): Conn
    requires c.live
  {
    var buf := c.inbuf + chunk;
    if !c.detected && !HasMethod(buf) then c.(inbuf := buf, live := false)
    else if o.failsBefore then c.(inbuf := buf, detected := true, live := false)
    else if buf == "" then c.(detected := true)
    else
      match Frame1(buf)
      case More => c.(inbuf := buf, detected := true)
      case Bad => c.(inbuf := buf, detected := true, live := false)
      case Got(request, used) =>
        var c' := c.(dispatched := c.dispatched + [request], detected := true);
        if o.handlerFails then c'.(inbuf := buf, live := false) else c'.(inbuf := buf[used..])
  }

  type Chunk = (string, Outcome)

  function Run(c: Conn, chunks: seq<Chunk>): Conn
    decreases |chunks|
  {
    if chunks == [] || !c.live then c else Run(Process(c, chunks[0].0, chunks[0].1), chunks[1..])
  }

  /** The bytes of all the chunks. */
  function Bytes(chunks: seq<Chunk>): string {
    if chunks == [] then "" else chunks[0].0 + Bytes(chunks[1..])
  }

  /** What has been dispatched and what is left to parse make up the requests of the stream. */
  predicate Agrees(c: Conn, future: string, requests: seq<Request>) {
    if c.live then c.dispatched + Batch(c.inbuf + future) == requests else c.dispatched <= requests
  }

  lemma PrefixOf<T>(a: seq<T>, b: seq<T>)
    ensures a <= a + b
  {
  }

  /** Bytes that do not contain the end of a header are fewer than the limit allows. */
  lemma {:induction false} LateEnd(s: string, more: string)
    requires FindEnd(s).None? && FindEnd(s + more).Some?
    ensures |s| <= FindEnd(s + more).value + 3
    decreases |s|
  {
    if s != "" {
      assert (s + more)[0] == s[0];
      assert (s + more)[1..] == s[1..] + more;
      if |s| >= 4 {
        StartsWithMore(s, more, "\r\n\r\n");
      }
      if !("\r\n\r\n" <= s + more) {
        LateEnd(s[1..], more);
      }
    }
  }

  /** A stream that starts with something http_process refuses has no requests. */
  lemma {:induction false} NothingInBad(buf: string, future: string)
    requires Frame1(buf).Bad? && WithinLimit(buf + future)
    ensures Batch(buf + future) == []
  {
    if FindEnd(buf).Some? {
      FindEndStable(buf, future);
      RequestLineStable(buf, future);
    } else if FindEnd(buf + future).Some? {
      LateEnd(buf, future);
    }
  }

  predicate Quiet(o: Outcome) {
    !o.failsBefore && !o.handlerFails
  }

  lemma {:induction false} BatchStep(buf: string, future: string)
    requires Frame1(buf).Got?
    ensures var f := Frame1(buf);
      && Batch(buf + future) == [f.request] + Batch(buf[f.used..] + future)
      && (WithinLimit(buf + future) ==> WithinLimit(buf[f.used..] + future))
  {
    GotStable(buf, future);
  }

  /** One call of client_process, wherever the stream happens to be cut. */
  lemma ProcessAgrees(c: Conn, chunk: string, o: Outcome, future: string, requests: seq<Request>)
    requires c.live && Agrees(c, chunk + future, requests)
    ensures Agrees(Process(c, chunk, o), future, requests)
  {
    var buf := c.inbuf + chunk;
    assert c.inbuf + (chunk + future) == buf + future;
    PrefixOf(c.dispatched, Batch(buf + future));
    if Frame1(buf).Got? {
      GotAgrees(c.dispatched, buf, future);
    }
  }

  lemma {:induction false} GotAgrees(dispatched: seq<Request>, buf: string, future: string)
    requires Frame1(buf).Got?
    ensures var f := Frame1(buf);
      var requests := dispatched + Batch(buf + future);
      && dispatched + [f.request] + Batch(buf[f.used..] + future) == requests
      && dispatched + [f.request] <= requests
  {
    var f := Frame1(buf);
    BatchStep(buf, future);
    OneMore(dispatched, f.request, Batch(buf[f.used..] + future));
  }

  lemma OneMore<T>(a: seq<T>, x: T, rest: seq<T>)
    ensures a + [x] + rest == a + ([x] + rest) && a + [x] <= a + ([x] + rest)
  {
  }

  lemma {:induction false} RunAgrees(c: Conn, chunks: seq<Chunk>, future: string, requests: seq<Request>)
    requires Agrees(c, Bytes(chunks) + future, requests)
    ensures Agrees(Run(c, chunks), future, requests)
    decreases |chunks|
  {
    if chunks == [] {
      assert "" + future == future;
    } else if c.live {
      var (chunk, o) := chunks[0];
      assert chunk + Bytes(chunks[1..]) + future == chunk + (Bytes(chunks[1..]) + future);
      ProcessAgrees(c, chunk, o, Bytes(chunks[1..]) + future, requests);
      RunAgrees(Process(c, chunk, o), chunks[1..], future, requests);
    }
  }

  /** However the stream is cut into reads and whatever else fails, the requests handed to
      dispatch are the first requests of the stream; and while the connection lives, what is left
      in inbuf, with whatever arrives later, parses to the others. */
  lemma {:induction false} ChunkingIndependent(chunks: seq<Chunk>, future: string)
    ensures var c := Run(CONNECTED, chunks);
      && c.dispatched <= Batch(Bytes(chunks) + future)
      && (c.live ==> c.dispatched + Batch(c.inbuf + future) == Batch(Bytes(chunks) + future))
  {
    var stream := Bytes(chunks) + future;
    assert "" + stream == stream && [] + Batch(stream) == Batch(stream);
    RunAgrees(CONNECTED, chunks, future, Batch(stream));
    var c := Run(CONNECTED, chunks);
    PrefixOf(c.dispatched, Batch(c.inbuf + future));
  }

  // ---------------------------------------------------------------- everything is delivered

  /** A connection that lives has no long header before it; one that is refused has dispatched
      everything. */
  predicate Delivers(c: Conn, future: string, requests: seq<Request>) {
    && c.detected
    && Agrees(c, future, requests)
    && if c.live then WithinLimit(c.inbuf + future) else c.dispatched == requests
  }

  lemma {:induction false} ProcessDelivers(c: Conn, chunk: string, o: Outcome, future: string, requests: seq<Request>)
    requires c.live && Agrees(c, chunk + future, requests) && WithinLimit(c.inbuf + (chunk + future))
    requires Quiet(o) && (c.detected || HasMethod(c.inbuf + chunk))
    ensures Delivers(Process(c, chunk, o), future, requests)
  {
    var buf := c.inbuf + chunk;
    assert c.inbuf + (chunk + future) == buf + future;
    ProcessAgrees(c, chunk, o, future, requests);
    match Frame1(buf)
    case More =>
    case Bad =>
      NothingInBad(buf, future);
      assert c.dispatched + [] == c.dispatched;
    case Got(_, _) => BatchStep(buf, future);
  }

  lemma {:induction false} QuietRun(c: Conn, chunks: seq<Chunk>, requests: seq<Request>)
    requires Delivers(c, Bytes(chunks), requests)
    requires forall i :: 0 <= i < |chunks| ==> Quiet(chunks[i].1)
    ensures Delivers(Run(c, chunks), "", requests)
    decreases |chunks|
  {
    if chunks != [] && c.live {
      ProcessDelivers(c, chunks[0].0, chunks[0].1, Bytes(chunks[1..]), requests);
      QuietRun(Process(c, chunks[0].0, chunks[0].1), chunks[1..], requests);
    }
  }

  /** Calls of client_process that read nothing, because the socket can be written to. */
  function Polls(k: nat): (r: seq<Chunk>)
    ensures |r| == k && forall i :: 0 <= i < k ==> r[i] == ("", Outcome(false, false))
  {
    seq(k, _ => ("", Outcome(false, false)))
  }

  lemma PollStep(c: Conn)
    requires c.live && c.detected
    ensures var c' := Process(c, "", Outcome(false, false));
      && (!c'.live ==> Batch(c.inbuf) == [] && c'.dispatched == c.dispatched)
      && (c'.live ==>
            && c'.detected
            && c'.dispatched + Batch(c'.inbuf) == c.dispatched + Batch(c.inbuf)
            && (Batch(c.inbuf) == [] || |Batch(c'.inbuf)| == |Batch(c.inbuf)| - 1))
  {
    assert c.inbuf + "" == c.inbuf;
    var f := Frame1(c.inbuf);
    if f.Got? {
      OneMore(c.dispatched, f.request, Batch(c.inbuf[f.used..]));
    }
  }

  lemma {:induction false} PollsFirst(c: Conn, k: nat)
    requires c.live && k > 0
    ensures Run(c, Polls(k)) == Run(Process(c, "", Outcome(false, false)), Polls(k - 1))
  {
    assert Polls(k)[1..] == Polls(k - 1);
  }

  /** Each such call dispatches one of the requests that have arrived. */
  lemma {:induction false} PollsDeliver(c: Conn, k: nat)
    requires c.live && c.detected && k >= |Batch(c.inbuf)|
    ensures Run(c, Polls(k)).dispatched == c.dispatched + Batch(c.inbuf)
    decreases k
  {
    if k == 0 {
      assert c.dispatched + [] == c.dispatched;
    } else {
      var c' := Process(c, "", Outcome(false, false));
      PollsFirst(c, k);
      PollStep(c);
      if c'.live {
        PollsDeliver(c', k - 1);
      } else {
        assert c.dispatched + [] == c.dispatched;
      }
    }
  }

  /** A way of cutting a stream whose first read holds a whole method, with nothing failing. */
  predicate QuietCut(chunks: seq<Chunk>, stream: string) {
    && chunks != [] && HasMethod(chunks[0].0) && Bytes(chunks) == stream
    && forall i :: 0 <= i < |chunks| ==> Quiet(chunks[i].1)
  }

  /** If no header exceeds the limit, every way of cutting the stream delivers exactly the requests
      of the stream, in order, given enough calls. */
  lemma {:induction false} AllDelivered(chunks: seq<Chunk>, stream: string, k: nat)
    requires QuietCut(chunks, stream) && WithinLimit(stream) && k >= |Batch(stream)|
    ensures Run(Run(CONNECTED, chunks), Polls(k)).dispatched == Batch(stream)
  {
    assert "" + stream == stream && [] + Batch(stream) == Batch(stream) && "" + chunks[0].0 == chunks[0].0;
    ProcessDelivers(CONNECTED, chunks[0].0, chunks[0].1, Bytes(chunks[1..]), Batch(stream));
    var first := Process(CONNECTED, chunks[0].0, chunks[0].1);
    QuietRun(first, chunks[1..], Batch(stream));
    var c := Run(first, chunks[1..]);
    if c.live {
      assert c.inbuf + "" == c.inbuf;
      PollsDeliver(c, k);
    }
  }

  // ---------------------------------------------------------------- the limit is necessary

  /** Once a header has arrived, it is found however few bytes follow it. */
  lemma {:induction false} FindEndShort(s: string, n: nat)
    requires FindEnd(s).Some? && FindEnd(s).value + 4 <= n <= |s|
    ensures FindEnd(s[..n]) == FindEnd(s)
    decreases |s|
  {
    assert s[..n] + s[n..] == s;
    StartsWithMore(s[..n], s[n..], "\r\n\r\n");
    if !("\r\n\r\n" <= s) {
      assert s[..n][1..] == s[1..][..n - 1];
      FindEndShort(s[1..], n - 1);
    }
  }

  /** Without its last byte it is not. */
  lemma {:induction false} FindEndCut(s: string, n: nat)
    requires FindEnd(s).Some? && n == FindEnd(s).value + 3
    ensures FindEnd(s[..n]).None?
  {
    assert s[..n] + s[n..] == s;
    if FindEnd(s[..n]).Some? {
      FindEndStable(s[..n], s[n..]);
    }
  }

  function Detected(inbuf: string, dispatched: seq<Request>): Conn {
    Conn(inbuf, dispatched, true, true)
  }

  /** The connection is refused after `m` calls, with no more dispatched than `done`. */
  predicate Refuses(inbuf: string, dispatched: seq<Request>, m: nat, done: seq<Request>) {
    Run(Detected(inbuf, dispatched), Polls(m)).dispatched == dispatched + done
    && !Run(Detected(inbuf, dispatched), Polls(m)).live
  }

  lemma {:induction false} RefusesAtOnce(inbuf: string, dispatched: seq<Request>)
    requires FindEnd(inbuf).None? && |inbuf| > MAX_HEADER_SIZE
    ensures Refuses(inbuf, dispatched, 1, [])
  {
    var c := Detected(inbuf, dispatched);
    assert inbuf + "" == inbuf && dispatched + [] == dispatched;
    assert Polls(1)[1..] == [];
    assert Run(c, Polls(1)) == Run(Process(c, "", Outcome(false, false)), []);
  }

  lemma RefusesLater(inbuf: string, dispatched: seq<Request>, m: nat, done: seq<Request>)
    requires Frame1(inbuf).Got?
    requires var f := Frame1(inbuf); Refuses(inbuf[f.used..], dispatched + [f.request], m, done)
    ensures Refuses(inbuf, dispatched, m + 1, [Frame1(inbuf).request] + done)
  {
    var c, f := Detected(inbuf, dispatched), Frame1(inbuf);
    assert inbuf + "" == inbuf;
    assert Process(c, "", Outcome(false, false)) == Detected(inbuf[f.used..], dispatched + [f.request]);
    assert Polls(m + 1)[1..] == Polls(m);
    assert dispatched + [f.request] + done == dispatched + ([f.request] + done);
  }

  lemma CutSuffix(s: string, k: nat, n: nat)
    requires k <= n <= |s|
    ensures s[..n][k..] == s[k..][..n - k] && s[..n] + s[n..] == s
  {
  }

  /** A cut behind the first request does not change that request. */
  lemma {:induction false} CutBehind(front: string, rest: string, used: nat)
    requires FindEnd(front).Some? && FindEnd(front).value + 4 == used && RequestLine(front + rest).Some?
    ensures Frame1(front) == Got(RequestLine(front + rest).value, used)
  {
    RequestLineStable(front, rest);
  }

  ghost predicate RefusesAny(inbuf: string, m: nat, done: seq<Request>) {
    forall dispatched :: Refuses(inbuf, dispatched, m, done)
  }

  lemma RefusesAnyLater(
      inbuf: string, request: Request, used: nat, rest: string,
      m: nat, done: seq<Request>, m': nat, done': seq<Request>)
    requires Frame1(inbuf) == Got(request, used) && inbuf[used..] == rest && RefusesAny(rest, m, done)
    requires m' == m + 1 && done' == [request] + done
    ensures RefusesAny(inbuf, m', done')
  {
    forall dispatched
      ensures Refuses(inbuf, dispatched, m', done')
    {
      RefusesLater(inbuf, dispatched, m, done);
    }
  }

  lemma {:induction false} RefusesAnyAtOnce(inbuf: string)
    requires FindEnd(inbuf).None? && |inbuf| > MAX_HEADER_SIZE
    ensures RefusesAny(inbuf, 1, [])
  {
    forall dispatched { RefusesAtOnce(inbuf, dispatched); }
  }

  lemma {:induction false} BatchFirst(stream: string, rest: string)
    requires FindEnd(stream).Some? && RequestLine(stream).Some? && stream[FindEnd(stream).value + 4..] == rest
    ensures Batch(stream) == [RequestLine(stream).value] + Batch(rest)
  {
  }

  lemma {:induction false} LimitFirst(stream: string, rest: string)
    requires FindEnd(stream).Some? && stream[FindEnd(stream).value + 4..] == rest
    requires !WithinLimit(stream) && FindEnd(stream).value + 3 <= MAX_HEADER_SIZE
    ensures !WithinLimit(rest)
  {
  }

  /** Where to cut a stream that exceeds the limit: one byte before the end of its first long
      header.  `m` calls dispatch the requests before that one, and then the client is refused. */
  lemma {:induction false} LongHeader(stream: string) returns (n: nat, m: nat, done: seq<Request>)
    requires !WithinLimit(stream)
    ensures MAX_HEADER_SIZE < n < |stream| && m > 0 && |done| < |Batch(stream)|
    ensures RefusesAny(stream[..n], m, done)
    decreases |stream|
  {
    var used, request := FindEnd(stream).value + 4, RequestLine(stream).value;
    var rest := stream[used..];
    BatchFirst(stream, rest);
    if used - 1 > MAX_HEADER_SIZE {
      n, m, done := used - 1, 1, [];
      FindEndCut(stream, n);
      RefusesAnyAtOnce(stream[..n]);
    } else {
      LimitFirst(stream, rest);
      var n', m', done' := LongHeader(rest);
      n, m, done := used + n', m' + 1, [request] + done';
      FindEndShort(stream, n);
      CutSuffix(stream, used, n);
      CutBehind(stream[..n], stream[n..], used);
      RefusesAnyLater(stream[..n], request, used, rest[..n'], m', done', m, done);
    }
  }

  lemma {:induction false} RunConcat(c: Conn, a: seq<Chunk>, b: seq<Chunk>)
    ensures Run(c, a + b) == Run(Run(c, a), b)
    decreases |a|
  {
    if a == [] {
      assert a + b == b;
    } else if c.live {
      assert (a + b)[1..] == a[1..] + b;
      RunConcat(Process(c, a[0].0, a[0].1), a[1..], b);
    }
  }

  lemma {:induction false} BytesConcat(a: seq<Chunk>, b: seq<Chunk>)
    ensures Bytes(a + b) == Bytes(a) + Bytes(b)
    decreases |a|
  {
    if a == [] {
      assert a + b == b && "" + Bytes(b) == Bytes(b);
    } else {
      assert (a + b)[1..] == a[1..] + b;
      BytesConcat(a[1..], b);
      assert a[0].0 + (Bytes(a[1..]) + Bytes(b)) == a[0].0 + Bytes(a[1..]) + Bytes(b);
    }
  }

  lemma {:induction false} BytesPolls(k: nat)
    ensures Bytes(Polls(k)) == ""
  {
    if k > 0 {
      assert Polls(k)[1..] == Polls(k - 1);
      BytesPolls(k - 1);
    }
  }

  /** The first read of `p`, and more calls that read nothing. */
  lemma FirstReadThenPolls(p: string, m: nat)
    requires HasMethod(p) && m > 0
    ensures Run(CONNECTED, [(p, Outcome(false, false))] + Polls(m - 1)) == Run(Detected(p, []), Polls(m))
  {
    var q := Outcome(false, false);
    assert "" + p == p && p + "" == p;
    assert Process(CONNECTED, p, q) == Process(Detected(p, []), "", q);
    assert Polls(m)[1..] == Polls(m - 1);
    assert ([(p, q)] + Polls(m - 1))[1..] == Polls(m - 1);
  }

  /** All but the first `n` bytes arrive late. */
  function LateRest(stream: string, n: nat, m: nat): seq<Chunk>
    requires n <= |stream| && m > 0
  {
    [(stream[..n], Outcome(false, false))] + Polls(m - 1) + [(stream[n..], Outcome(false, false))]
  }

  lemma LateRestIsCut(stream: string, n: nat, m: nat)
    requires 5 <= n <= |stream| && m > 0 && HasMethod(stream)
    ensures QuietCut(LateRest(stream, n, m), stream)
    ensures HasMethod(stream[..n])
  {
    var q := Outcome(false, false);
    var p, rest := stream[..n], stream[n..];
    assert p + rest == stream;
    StartsWithMore(p, rest, "GET ");
    StartsWithMore(p, rest, "HEAD ");
    BytesPolls(m - 1);
    BytesConcat([(p, q)], Polls(m - 1));
    BytesConcat([(p, q)] + Polls(m - 1), [(rest, q)]);
    BytesOne(p);
    BytesOne(rest);
    assert p + "" == p;
    assert LateRest(stream, n, m)[0] == (p, q);
  }

  lemma BytesOne(p: string)
    ensures Bytes([(p, Outcome(false, false))]) == p
  {
    var one := [(p, Outcome(false, false))];
    assert one[1..] == [] && p + "" == p;
  }

  /** A stream with a header that exceeds the limit can be cut so that requests are lost: the
      client is refused with the long header one byte short. */
  lemma LosingCut(stream: string) returns (chunks: seq<Chunk>)
    requires !WithinLimit(stream)
    ensures QuietCut(chunks, stream)
    ensures forall k: nat :: |Run(Run(CONNECTED, chunks), Polls(k)).dispatched| < |Batch(stream)|
  {
    var n, m, done := LongHeader(stream);
    assert HasMethod(stream);
    LateRestIsCut(stream, n, m);
    chunks := LateRest(stream, n, m);
    var early := [(stream[..n], Outcome(false, false))] + Polls(m - 1);
    FirstReadThenPolls(stream[..n], m);
    assert Refuses(stream[..n], [], m, done) && [] + done == done;
    RunConcat(CONNECTED, early, [(stream[n..], Outcome(false, false))]);
    assert !Run(CONNECTED, early).live;
    assert Run(CONNECTED, chunks) == Run(CONNECTED, early);
  }

  ghost predicate EveryCutDelivers(stream: string) {
    forall chunks, k: nat :: QuietCut(chunks, stream) && k >= |Batch(stream)| ==>
      Run(Run(CONNECTED, chunks), Polls(k)).dispatched == Batch(stream)
  }

  /** What is delivered does not depend on how the stream is cut, if and only if no request in it
      has a header that exceeds the limit before its last byte. */
  lemma {:induction false} CutsAgree(stream: string)
    ensures EveryCutDelivers(stream) <==> WithinLimit(stream)
  {
    if WithinLimit(stream) {
      forall chunks, k: nat | QuietCut(chunks, stream) && k >= |Batch(stream)|
        ensures Run(Run(CONNECTED, chunks), Polls(k)).dispatched == Batch(stream)
      {
        AllDelivered(chunks, stream, k);
      }
    } else {
      var chunks := LosingCut(stream);
      var k := |Batch(stream)|;
      assert Run(Run(CONNECTED, chunks), Polls(k)).dispatched != Batch(stream);
    }
  }

  lemma {:induction false} MorePolls(c: Conn, k: nat)
    ensures Run(Run(c, Polls(1)), Polls(k)) == Run(c, Polls(k + 1))
  {
    RunConcat(c, Polls(1), Polls(k));
    assert Polls(1) + Polls(k) == Polls(k + 1);
  }

  lemma {:induction false} FirstReadOnly(stream: string, one: seq<Chunk>, n: nat)
    requires HasMethod(stream) && one == [(stream, Outcome(false, false))] && n == 1
    ensures Run(CONNECTED, one) == Run(Detected(stream, []), Polls(n))
  {
    FirstReadThenPolls(stream, n);
    assert one + Polls(n - 1) == one;
  }

  lemma {:induction false} FirstReadDelivers(stream: string, one: seq<Chunk>, k: nat, c: Conn)
    requires HasMethod(stream) && k >= |Batch(stream)| && c == Detected(stream, [])
    requires Run(CONNECTED, one) == Run(c, Polls(1))
    ensures Run(Run(CONNECTED, one), Polls(k)).dispatched == Batch(stream)
  {
    MorePolls(c, k);
    PollsDeliver(c, k + 1);
    assert [] + Batch(stream) == Batch(stream);
  }

  /** A stream that arrives in one read is delivered whole, whatever its headers. */
  lemma {:induction false} OneReadDelivers(stream: string, k: nat)
    requires HasMethod(stream) && k >= |Batch(stream)|
    ensures Run(Run(CONNECTED, [(stream, Outcome(false, false))]), Polls(k)).dispatched == Batch(stream)
  {
    var one := [(stream, Outcome(false, false))];
    FirstReadOnly(stream, one, 1);
    FirstReadDelivers(stream, one, k, Detected(stream, []));
  }

  // ---------------------------------------------------------------- the first read

  lemma {:induction false} NotDetected(chunks: seq<Chunk>)
    requires chunks != [] && !HasMethod(chunks[0].0)
    ensures Run(CONNECTED, chunks).dispatched == [] && !Run(CONNECTED, chunks).live
  {
    assert "" + chunks[0].0 == chunks[0].0;
    var c := Process(CONNECTED, chunks[0].0, chunks[0].1);
    assert Run(c, chunks[1..]) == c;
  }

  /** protocol.h lets a protocol ask for more data before it decides, and http_detect does, but
      find_protocol takes that for a refusal.  So a stream with requests is delivered if and only
      if the first read holds a whole method, whatever follows. */
  lemma {:induction false} ShortFirstRead(chunks: seq<Chunk>, stream: string, k: nat)
    requires chunks != [] && Bytes(chunks) == stream && forall i :: 0 <= i < |chunks| ==> Quiet(chunks[i].1)
    requires WithinLimit(stream) && Batch(stream) != [] && k >= |Batch(stream)|
    ensures Run(Run(CONNECTED, chunks), Polls(k)).dispatched == Batch(stream) <==> HasMethod(chunks[0].0)
    ensures !HasMethod(chunks[0].0) ==> Run(Run(CONNECTED, chunks), Polls(k)).dispatched == []
  {
    if HasMethod(chunks[0].0) {
      AllDelivered(chunks, stream, k);
    } else {
      NotDetected(chunks);
    }
  }

  // ---------------------------------------------------------------- the parsing loops

  /** The loop over the query: where it ends, or None if the line ends first. */
  method ScanQuery(p: string) returns (n: Option<nat>)
    ensures n == QueryLength(p)
  {
    var i, rest := 0, p;
    while rest == "" || rest[0] != ' '
      invariant i <= |p| && rest == p[i..]
      invariant QueryLength(p) == var r := QueryLength(rest); if r.None? then None else Some(i + r.value)
      decreases |rest|
    {
      if rest == "" || rest[0] == '\0' || rest[0] == '\r' || rest[0] == '\n' {
        return None;
      }
      i, rest := i + 1, rest[1..];
    }
    return Some(i);
  }

  /** strchr(query, '?') and the two extractions */
  method ExtractPath(query: string) returns (r: Request)
    ensures r == SplitQuery(query)
  {
    var path, rest := "", query;
    while rest != "" && rest[0] != '?'
      invariant SplitQuery(query) == Request(path + SplitQuery(rest).path, SplitQuery(rest).args)
      decreases |rest|
    {
      path, rest := path + [rest[0]], rest[1..];
    }
    assert path + "" == path;
    r := Request(path, if rest == "" then None else Some(rest[1..]));
  }

  lemma MethodSpace(buf: string)
    requires HasMethod(buf)
    ensures var k := if "GET " <= buf then 3 else 4;
      k < |buf| && buf[k] == ' ' && forall i :: 0 <= i < k ==> buf[i] != ' '
  {
    if "GET " <= buf {
      assert forall i :: 0 <= i < 4 ==> buf[i] == buf[..4][i] == "GET "[i];
    } else {
      assert forall i :: 0 <= i < 5 ==> buf[i] == buf[..5][i] == "HEAD "[i];
    }
  }

  /** http_process up to dispatch */
  method HttpProcess(buf: string) returns (f: Frame)
    ensures f == Frame1(buf)
  {
    var end := FindEnd(buf);
    if end.None? {
      return if |buf| > MAX_HEADER_SIZE then Bad else More;
    }
    if !HasMethod(buf) {
      return Bad;
    }
    MethodSpace(buf);
    var p1 := 0;
    while buf[p1] != ' '
      invariant p1 <= (if "GET " <= buf then 3 else 4)
      decreases |buf| - p1
    {
      p1 := p1 + 1;
    }
    p1 := p1 + 1;
    if p1 == |buf| || buf[p1] != '/' {
      return Bad;
    }
    var p2 := ScanQuery(buf[p1..]);
    if p2.None? {
      return Bad;
    }
    var request := ExtractPath(buf[p1..][..p2.value]);
    return Got(request, end.value + 4);
  }
}
