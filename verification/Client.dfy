/** The client machine of src/client.c: one call of client_process reads what has arrived, finishes
    a waiting task, writes what it can, and then either processes one request or feeds. */
module Client {
  import opened Common
  import opened Http

  datatype State = Normal | Feed | WaitTask | Drain

  /** What the protocol does to the client while it is called: it appends to outbuf, may change
      the state, and returns a negative number on failure. */
  datatype Effect = Effect(output: string, state: Option<State>, fails: bool)

  datatype ReadEnd = Blocked | ClosedOrFailed

  datatype WriteResult = Wrote(n: nat) | WouldBlock | WriteFailed

  /** Everything outside the client that one call depends on.  `headers` are the lines of a reply
      that depend on version, settings and request. */
  datatype Env = Env(
    arrived: seq<string>,
    readEnd: ReadEnd,
    callback: Effect,
    write: WriteResult,
    handler: Effect,
    feed: Effect,
    headers: string)

  /** client_t, with the history that its buffers are measured by: all bytes read from and written
      to the socket, all bytes the protocol has produced, and the requests dispatched. */
  datatype ClientState = ClientState(
    inbuf: string,
    outbuf: string,
    detected: bool,
    state: State,
    received: string,
    consumed: string,
    produced: string,
    sent: string,
    dispatched: seq<Request>)

  const CONNECTED_CLIENT := ClientState("", "", false, Normal, "", "", "", "", [])

  function Concat(parts: seq<string>): string {
    if parts == [] then "" else parts[0] + Concat(parts[1..])
  }

  function Produce(c: ClientState, output: string): ClientState {
    c.(outbuf := c.outbuf + output, produced := c.produced + output)
  }

  function Affect(c: ClientState, e: Effect): ClientState {
    var c' := Produce(c, e.output);
    if e.state.Some? then c'.(state := e.state.value) else c'
  }

  /** read_data until nothing more is there */
  function AfterReads(c: ClientState, parts: seq<string>): ClientState {
    c.(inbuf := c.inbuf + Concat(parts), received := c.received + Concat(parts))
  }

  /** write_data; the system writes at most what it is given. */
  function AfterWrite(c: ClientState, w: WriteResult): ClientState {
    if c.outbuf == "" || !w.Wrote? then c
    else
      var n := if w.n <= |c.outbuf| then w.n else |c.outbuf|;
      c.(outbuf := c.outbuf[n..], sent := c.sent + c.outbuf[..n])
  }

  const BAD_REQUEST := "400 Bad Request"

  /** What http_reply sends. */
  function Refusal(env: Env): string {
    "HTTP/1.1 " + BAD_REQUEST + "\r\n" + env.headers + "\r\n" + BAD_REQUEST
  }

  /** The last part of client_process: one request, or else a feed. */
  function Serve(c: ClientState, env: Env): (ClientState, int) {
    if c.inbuf != "" then
      match Frame1(c.inbuf)
      case More => (c, 0)
      case Bad => (Produce(c, Refusal(env)), -1)
      case Got(request, used) =>
        var c' := Affect(c.(dispatched := c.dispatched + [request]), env.handler);
        if env.handler.fails then (c', -1)
        else (c'.(inbuf := c.inbuf[used..], consumed := c.consumed + c.inbuf[..used]), 0)
    else if c.state == Feed && c.outbuf == "" then
      (Affect(c, env.feed), if env.feed.fails then -1 else 0)
    else (c, 0)
  }

  /** A finished task: back to the normal state, and the callback is called. */
  function AfterTask(c: ClientState, env: Env): ClientState {
    if c.state == WaitTask then Affect(c.(state := Normal), env.callback) else c
  }

  /** client_process up to the point where it serves, and whether it gets there. */
  function Ready(c: ClientState, env: Env): (ClientState, bool) {
    var read := AfterReads(c, env.arrived);
    if env.readEnd == ClosedOrFailed || (!read.detected && !HasMethod(read.inbuf)) then (read, false)
    else
      var called := AfterTask(read.(detected := true), env);
      if read.state == WaitTask && env.callback.fails then (called, false)
      else if called.outbuf != "" && env.write.WriteFailed? then (called, false)
      else
        var written := AfterWrite(called, env.write);
        (written, !(written.state == Drain && written.outbuf == ""))
  }

  /** client_process */
  function Step(c: ClientState, env: Env): (ClientState, int) {
    var (ready, ok) := Ready(c, env);
    if ok then Serve(ready, env) else (ready, -1)
  }

  // ---------------------------------------------------------------- what every call keeps

  /** No byte is lost, duplicated or reordered in either direction. */
  ghost predicate Conserved(c: ClientState) {
    c.received == c.consumed + c.inbuf && c.produced == c.sent + c.outbuf
  }

  lemma ProduceConserves(c: ClientState, output: string)
    requires Conserved(c)
    ensures Conserved(Produce(c, output))
  {
    assert c.sent + c.outbuf + output == c.sent + (c.outbuf + output);
  }

  lemma WriteConserves(c: ClientState, w: WriteResult)
    requires Conserved(c)
    ensures Conserved(AfterWrite(c, w))
  {
    if c.outbuf != "" && w.Wrote? {
      var n := if w.n <= |c.outbuf| then w.n else |c.outbuf|;
      assert c.sent + c.outbuf == c.sent + c.outbuf[..n] + c.outbuf[n..];
    }
  }

  lemma ServeConserves(c: ClientState, env: Env)
    requires Conserved(c)
    ensures Conserved(Serve(c, env).0)
  {
    ProduceConserves(c, Refusal(env));
    ProduceConserves(c, env.handler.output);
    ProduceConserves(c, env.feed.output);
    if c.inbuf != "" && Frame1(c.inbuf).Got? {
      var used := Frame1(c.inbuf).used;
      assert c.consumed + c.inbuf == c.consumed + c.inbuf[..used] + c.inbuf[used..];
    }
  }

  lemma ReadyConserves(c: ClientState, env: Env)
    requires Conserved(c)
    ensures Conserved(Ready(c, env).0)
  {
    var read := AfterReads(c, env.arrived);
    assert c.consumed + c.inbuf + Concat(env.arrived) == c.consumed + (c.inbuf + Concat(env.arrived));
    ProduceConserves(read.(detected := true), env.callback.output);
    WriteConserves(AfterTask(read.(detected := true), env), env.write);
  }

  lemma StepConserves(c: ClientState, env: Env)
    requires Conserved(c)
    ensures Conserved(Step(c, env).0)
  {
    ReadyConserves(c, env);
    ServeConserves(Ready(c, env).0, env);
  }

  // ---------------------------------------------------------------- the machine frames the stream

  function ConnOf(c: ClientState, live: bool): Conn {
    Conn(c.inbuf, c.dispatched, c.detected, live)
  }

  /** Whether the call fails without asking the protocol about the bytes that have arrived. */
  predicate FailsBefore(c: ClientState, env: Env) {
    var (ready, ok) := Ready(c, env);
    !ok || (ready.inbuf == "" && ready.state == Feed && ready.outbuf == "" && env.feed.fails)
  }

  lemma ReadyConn(c: ClientState, env: Env)
    ensures var (ready, ok) := Ready(c, env);
      && ready.inbuf == c.inbuf + Concat(env.arrived) && ready.dispatched == c.dispatched
      && (ok ==> ready.detected && (c.detected || HasMethod(ready.inbuf)))
  {
  }

  /** One call of client_process takes the connection where Http.Process says. */
  lemma StepRefines(c: ClientState, env: Env)
    ensures var (c', result) := Step(c, env);
      var conn := Process(ConnOf(c, true), Concat(env.arrived), Outcome(FailsBefore(c, env), env.handler.fails));
      && (result == 0 || result == -1)
      && c'.dispatched == conn.dispatched
      && conn.live == (result == 0)
      && (conn.live ==> ConnOf(c', true) == conn)
  {
    ReadyConn(c, env);
  }

  /** The run of a client until it ends; false when it has. */
  function RunClient(c: ClientState, envs: seq<Env>): (ClientState, bool)
    decreases |envs|
  {
    if envs == [] then (c, true)
    else
      var (c', result) := Step(c, envs[0]);
      if result < 0 then (c', false) else RunClient(c', envs[1..])
  }

  /** All the bytes the peer sends. */
  function Arrivals(envs: seq<Env>): string {
    if envs == [] then "" else Concat(envs[0].arrived) + Arrivals(envs[1..])
  }

  lemma {:induction false} ClientAgrees(c: ClientState, envs: seq<Env>, future: string, requests: seq<Request>)
    requires Agrees(ConnOf(c, true), Arrivals(envs) + future, requests)
    ensures var (c', live) := RunClient(c, envs); Agrees(ConnOf(c', live), future, requests)
    decreases |envs|
  {
    if envs == [] {
      assert "" + future == future;
    } else {
      var chunk, rest := Concat(envs[0].arrived), Arrivals(envs[1..]);
      assert chunk + rest + future == chunk + (rest + future);
      var o := Outcome(FailsBefore(c, envs[0]), envs[0].handler.fails);
      ProcessAgrees(ConnOf(c, true), chunk, o, rest + future, requests);
      StepRefines(c, envs[0]);
      var (c', result) := Step(c, envs[0]);
      if result == 0 {
        ClientAgrees(c', envs[1..], future, requests);
      }
    }
  }

  lemma {:induction false} RunConserves(c: ClientState, envs: seq<Env>)
    requires Conserved(c)
    ensures Conserved(RunClient(c, envs).0)
    decreases |envs|
  {
    if envs != [] {
      StepConserves(c, envs[0]);
      var (c', result) := Step(c, envs[0]);
      if result >= 0 {
        RunConserves(c', envs[1..]);
      }
    }
  }

  /** Over any run, whatever the state machine is doing: the bytes sent are the first bytes
      produced and the rest is in outbuf, the bytes consumed are the first bytes received and the
      rest is in inbuf, and the requests dispatched are the first requests of the whole stream. */
  lemma {:induction false} ClientRun(envs: seq<Env>, future: string)
    ensures var (c, live) := RunClient(CONNECTED_CLIENT, envs);
      && c.produced == c.sent + c.outbuf && c.received == c.consumed + c.inbuf
      && c.dispatched <= Batch(Arrivals(envs) + future)
      && (live ==> c.dispatched + Batch(c.inbuf + future) == Batch(Arrivals(envs) + future))
  {
    var stream := Arrivals(envs) + future;
    assert "" + stream == stream && [] + Batch(stream) == Batch(stream);
    ClientAgrees(CONNECTED_CLIENT, envs, future, Batch(stream));
    RunConserves(CONNECTED_CLIENT, envs);
    var (c, live) := RunClient(CONNECTED_CLIENT, envs);
    PrefixOf(c.dispatched, Batch(c.inbuf + future));
  }

  // ---------------------------------------------------------------- how a client ends

  predicate NothingFails(env: Env) {
    env.readEnd == Blocked && !env.callback.fails && !env.write.WriteFailed? && !env.handler.fails && !env.feed.fails
  }

  /** The state and the output of a client when a waiting task's callback has been called. */
  function StateThen(c: ClientState, env: Env): State {
    if c.state != WaitTask then c.state else if env.callback.state.Some? then env.callback.state.value else Normal
  }

  function OutputThen(c: ClientState, env: Env): string {
    if c.state == WaitTask then c.outbuf + env.callback.output else c.outbuf
  }

  /** All that the client has to send is taken by the system. */
  predicate Emptied(c: ClientState, env: Env) {
    OutputThen(c, env) == "" || (env.write.Wrote? && env.write.n >= |OutputThen(c, env)|)
  }

  /** A draining client whose whole output the system takes. */
  predicate Drained(c: ClientState, env: Env) {
    StateThen(c, env) == Drain && Emptied(c, env)
  }

  /** The first read did not hold a whole method. */
  predicate Undetected(c: ClientState, env: Env) {
    !c.detected && !HasMethod(c.inbuf + Concat(env.arrived))
  }

  lemma ReadyUnlessDrained(c: ClientState, env: Env)
    requires NothingFails(env)
    ensures Ready(c, env).1 <==> !Undetected(c, env) && !Drained(c, env)
  {
  }

  /** When nothing fails, a client is ended if and only if its first read does not hold a whole
      method, or it was draining and the system takes all that is left, or the request in front is
      malformed.  In the second case every byte ever produced has been sent; in the third the
      reply is the end of outbuf, unsent. */
  lemma EndsDrainedOrRefused(c: ClientState, env: Env)
    requires Conserved(c) && NothingFails(env)
    ensures Step(c, env).1 < 0 <==>
      Undetected(c, env) || Drained(c, env) || Frame1(c.inbuf + Concat(env.arrived)).Bad?
    ensures var c' := Step(c, env).0;
      !Undetected(c, env) && Drained(c, env) ==>
        c'.outbuf == "" && c'.sent == c'.produced && c'.dispatched == c.dispatched
    ensures var c' := Step(c, env).0;
      !Undetected(c, env) && !Drained(c, env) && Frame1(c.inbuf + Concat(env.arrived)).Bad? ==>
        EndsWith(c'.outbuf, Refusal(env)) && c'.produced == c'.sent + c'.outbuf && c'.dispatched == c.dispatched
  {
    ReadyUnlessDrained(c, env);
    StepConserves(c, env);
    ReadyConn(c, env);
    var (ready, ok) := Ready(c, env);
    if !ok {
      assert !Undetected(c, env) ==> ready.outbuf == "";
      assert ready.sent + "" == ready.sent;
    } else if Frame1(ready.inbuf).Bad? {
      Appended(ready.outbuf, Refusal(env));
    }
  }

  predicate EndsWith(s: string, end: string) {
    |end| <= |s| && s[|s| - |end|..] == end
  }

  lemma Appended(s: string, end: string)
    ensures EndsWith(s + end, end)
  {
  }

  // ---------------------------------------------------------------- when a client is fed

  /** The call asks the protocol for a feed: what it does depends on what the feed does. */
  ghost predicate AsksForFeed(c: ClientState, env: Env) {
    exists feed :: Step(c, env.(feed := feed)) != Step(c, env)
  }

  /** Up to the point where it serves, the call does not look at the feed. */
  lemma ReadyIgnoresFeed(c: ClientState, env: Env, feed: Effect)
    ensures Ready(c, env.(feed := feed)) == Ready(c, env)
  {
  }

  lemma ServeIgnoresFeed(c: ClientState, env: Env, feed: Effect)
    requires c.inbuf != "" || c.state != Feed || c.outbuf != ""
    ensures Serve(c, env.(feed := feed)) == Serve(c, env)
  {
  }

  /** Where a call that nothing fails serves. */
  lemma ReadyToFeed(c: ClientState, env: Env)
    requires NothingFails(env)
    ensures var (ready, ok) := Ready(c, env);
      ok && ready.inbuf == "" && ready.state == Feed && ready.outbuf == "" <==>
        c.detected && StateThen(c, env) == Feed && Emptied(c, env) && c.inbuf + Concat(env.arrived) == ""
  {
  }

  /** protocol.h promises a feed whenever a feeding client can take data.  When nothing fails, the
      call asks for one if and only if the client is detected and feeding, all its output is taken,
      and nothing is left in inbuf: bytes of the next request, complete or not, hold it back. */
  lemma FeedAsked(c: ClientState, env: Env)
    requires NothingFails(env)
    ensures AsksForFeed(c, env) <==>
      c.detected && StateThen(c, env) == Feed && Emptied(c, env) && c.inbuf + Concat(env.arrived) == ""
  {
    var (ready, ok) := Ready(c, env);
    ReadyToFeed(c, env);
    if ok && ready.inbuf == "" && ready.state == Feed && ready.outbuf == "" {
      var feed := env.feed.(fails := true);
      ReadyIgnoresFeed(c, env, feed);
      assert Step(c, env.(feed := feed)).1 == -1 && Step(c, env).1 == 0;
    } else {
      forall feed
        ensures Step(c, env.(feed := feed)) == Step(c, env)
      {
        ReadyIgnoresFeed(c, env, feed);
        if ok {
          ServeIgnoresFeed(ready, env, feed);
        }
      }
    }
  }

  /** A call that asks for a feed has sent everything before it; what the feed writes is in outbuf
      then, and the state is the one that the feed leaves, by default still feeding. */
  lemma FeedReaches(c: ClientState, env: Env)
    requires Conserved(c) && NothingFails(env) && AsksForFeed(c, env)
    ensures var (c', result) := Step(c, env);
      && result == 0 && c'.outbuf == env.feed.output && c'.produced == c'.sent + env.feed.output
      && c'.sent == c.produced + (if c.state == WaitTask then env.callback.output else "")
      && c'.state == (if env.feed.state.Some? then env.feed.state.value else Feed)
      && c'.inbuf == "" && c'.dispatched == c.dispatched
  {
    FeedAsked(c, env);
    ReadyToFeed(c, env);
    StepConserves(c, env);
    SentAll(c, env);
    var (ready, ok) := Ready(c, env);
    assert "" + env.feed.output == env.feed.output;
    assert Step(c, env) == (Affect(ready, env.feed), 0);
  }

  lemma SentAll(c: ClientState, env: Env)
    requires Conserved(c) && NothingFails(env) && Ready(c, env).1 && Ready(c, env).0.outbuf == ""
    ensures Ready(c, env).0.sent == c.produced + (if c.state == WaitTask then env.callback.output else "")
  {
    var read := AfterReads(c, env.arrived);
    var called := AfterTask(read.(detected := true), env);
    assert c.produced + "" == c.produced;
    assert c.sent + c.outbuf + "" == c.sent + c.outbuf;
    if c.state == WaitTask {
      ProduceConserves(c, env.callback.output);
    }
    assert called.produced == called.sent + called.outbuf;
    assert called.outbuf[..|called.outbuf|] == called.outbuf;
  }

  /** A call that finds a whole request takes exactly its bytes and hands it over; what the handler
      writes goes behind all output before it, and the state is the one that it leaves. */
  lemma RequestReaches(c: ClientState, env: Env, request: Request, used: nat)
    requires Conserved(c) && NothingFails(env) && Ready(c, env).1
    requires Frame1(c.inbuf + Concat(env.arrived)) == Got(request, used)
    ensures var (c', result) := Step(c, env);
      && result == 0 && c'.dispatched == c.dispatched + [request]
      && c'.inbuf == (c.inbuf + Concat(env.arrived))[used..]
      && c'.produced == c.produced + (if c.state == WaitTask then env.callback.output else "") + env.handler.output
      && c'.state == (if env.handler.state.Some? then env.handler.state.value else StateThen(c, env))
      && EndsWith(c'.outbuf, env.handler.output)
  {
    var (ready, ok) := Ready(c, env);
    assert c.produced + "" == c.produced;
    Appended(ready.outbuf, env.handler.output);
  }

  /** A feeding client with part of a request in inbuf. */
  predicate Stalled(c: ClientState) {
    c.detected && c.state == Feed && c.outbuf == "" && c.inbuf != "" && Frame1(c.inbuf).More?
  }

  predicate NothingArrives(env: Env) {
    NothingFails(env) && env.arrived == []
  }

  /** As long as the rest of the request does not arrive, no number of calls changes anything: the
      stream is never fed again. */
  lemma {:induction false} StaysStalled(c: ClientState, envs: seq<Env>)
    requires Stalled(c) && forall i :: 0 <= i < |envs| ==> NothingArrives(envs[i])
    ensures RunClient(c, envs) == (c, true)
    decreases |envs|
  {
    if envs != [] {
      assert c.inbuf + "" == c.inbuf && c.received + "" == c.received;
      assert Step(c, envs[0]) == (c, 0);
      StaysStalled(c, envs[1..]);
    }
  }

  /** A feeding client with `part` in inbuf, whatever of its output has been sent. */
  predicate Waiting(c: ClientState, part: string, output: string) {
    c.detected && c.state == Feed && c.inbuf == part && c.produced == output
  }

  lemma {:induction false} StepWaits(c: ClientState, env: Env, part: string, output: string)
    requires Waiting(c, part, output) && part != "" && Frame1(part).More? && NothingArrives(env)
    ensures var (c', result) := Step(c, env); result == 0 && Waiting(c', part, output)
  {
    assert c.inbuf + "" == c.inbuf;
  }

  lemma {:induction false} KeepsWaiting(c: ClientState, envs: seq<Env>, part: string, output: string)
    requires Waiting(c, part, output) && part != "" && Frame1(part).More?
    requires forall i :: 0 <= i < |envs| ==> NothingArrives(envs[i])
    ensures var (c', live) := RunClient(c, envs); live && Waiting(c', part, output)
    decreases |envs|
  {
    if envs != [] {
      StepWaits(c, envs[0], part, output);
      KeepsWaiting(Step(c, envs[0]).0, envs[1..], part, output);
    }
  }

  /** The first call, up to the point where it serves. */
  lemma {:induction false} ReadyFirst(env: Env, bytes: string)
    requires NothingFails(env) && Concat(env.arrived) == bytes && HasMethod(bytes)
    ensures var (c, ok) := Ready(CONNECTED_CLIENT, env);
      ok && c.detected && c.inbuf == bytes && c.outbuf == "" && c.produced == ""
  {
    assert "" + bytes == bytes;
  }

  lemma {:induction false} ServesStream(c: ClientState, request: string, part: string, env: Env)
    requires c.detected && c.inbuf == request + part && c.produced == "" && part != ""
    requires Frame1(request + part).Got? && Frame1(request + part).used == |request|
    requires !env.handler.fails && env.handler.state == Some(Feed)
    ensures var (c', result) := Serve(c, env); result == 0 && Waiting(c', part, env.handler.output)
  {
    assert (request + part)[|request|..] == part;
    assert "" + env.handler.output == env.handler.output;
  }

  /** A client gets there with a request that is answered by a stream, whatever is written before
      the stream begins, and the first bytes of another request behind it. */
  lemma {:induction false} ReachesStall(request: string, part: string, env: Env)
    requires Frame1(request).Got? && Frame1(request).used == |request|
    requires part != "" && Frame1(part).More?
    requires NothingFails(env) && Concat(env.arrived) == request + part && env.handler.state == Some(Feed)
    ensures var (c, result) := Step(CONNECTED_CLIENT, env);
      result == 0 && Waiting(c, part, env.handler.output)
  {
    ReadyFirst(env, request + part);
    GotStable(request, part);
    ServesStream(Ready(CONNECTED_CLIENT, env).0, request, part, env);
  }

  /** So in every run of that client in which the rest of the second request does not arrive, all
      that it ever produces is what the handler wrote: the stream is not fed once. */
  lemma {:induction false} StreamStalls(request: string, part: string, env: Env, envs: seq<Env>)
    requires Frame1(request).Got? && Frame1(request).used == |request|
    requires part != "" && Frame1(part).More?
    requires NothingFails(env) && Concat(env.arrived) == request + part && env.handler.state == Some(Feed)
    requires forall i :: 0 <= i < |envs| ==> NothingArrives(envs[i])
    ensures var (c, live) := RunClient(CONNECTED_CLIENT, [env] + envs);
      live && c.state == Feed && c.inbuf == part && c.produced == env.handler.output
  {
    ReachesStall(request, part, env);
    KeepsWaiting(Step(CONNECTED_CLIENT, env).0, envs, part, env.handler.output);
    assert ([env] + envs)[1..] == envs;
  }

  // ---------------------------------------------------------------- client_t

  class Connection {
    var inbuf: string
    var outbuf: string
    var detected: bool
    var state: State
    ghost var received: string
    ghost var consumed: string
    ghost var produced: string
    ghost var sent: string
    ghost var dispatched: seq<Request>

    ghost function View(): ClientState
      reads this
    {
      ClientState(inbuf, outbuf, detected, state, received, consumed, produced, sent, dispatched)
    }

    /** client_new */
    constructor ()
      ensures View() == CONNECTED_CLIENT
    {
      inbuf, outbuf, detected, state := "", "", false, Normal;
      received, consumed, produced, sent, dispatched := "", "", "", "", [];
    }

    /** read_data in a loop, until it returns 0 or fails */
    method ReadAll(arrived: seq<string>)
      modifies this`inbuf, this`received
      ensures View() == AfterReads(old(View()), arrived)
    {
      var i := 0;
      while i < |arrived|
        invariant i <= |arrived|
        invariant inbuf + Concat(arrived[i..]) == old(inbuf) + Concat(arrived)
        invariant received + Concat(arrived[i..]) == old(received) + Concat(arrived)
      {
        assert arrived[i..][1..] == arrived[i + 1..];
        Regroup(inbuf, arrived[i], Concat(arrived[i + 1..]));
        Regroup(received, arrived[i], Concat(arrived[i + 1..]));
        inbuf, received := inbuf + arrived[i], received + arrived[i];
        i := i + 1;
      }
      assert inbuf + "" == inbuf && received + "" == received;
    }

    /** What a call into the protocol does to the client. */
    method Apply(e: Effect)
      modifies this`outbuf, this`produced, this`state
      ensures View() == Affect(old(View()), e)
    {
      outbuf, produced := outbuf + e.output, produced + e.output;
      if e.state.Some? {
        state := e.state.value;
      }
    }

    /** write_data */
    method WriteData(w: WriteResult) returns (result: int)
      modifies this`outbuf, this`sent
      ensures result == if w.WriteFailed? then -1 else 0
      ensures View() == AfterWrite(old(View()), w)
    {
      match w
      case WriteFailed => result := -1;
      case WouldBlock => result := 0;
      case Wrote(n) =>
        var m := if n <= |outbuf| then n else |outbuf|;
        assert outbuf == "" ==> outbuf[m..] == "" && sent + outbuf[..m] == sent;
        sent := sent + outbuf[..m];
        outbuf := outbuf[m..];
        result := 0;
    }

    /** The last part of client_process. */
    method ServeOne(env: Env) returns (result: int)
      modifies this
      ensures (View(), result) == Serve(old(View()), env)
    {
      if |inbuf| > 0 {
        var frame := HttpProcess(inbuf);
        match frame
        case More => return 0;
        case Bad =>
          Apply(Effect(Refusal(env), None, true));
          return -1;
        case Got(request, used) =>
          dispatched := dispatched + [request];
          Apply(env.handler);
          if env.handler.fails {
            return -1;
          }
          consumed := consumed + inbuf[..used];
          inbuf := inbuf[used..];
      } else if state == Feed && |outbuf| == 0 {
        Apply(env.feed);
        if env.feed.fails {
          return -1;
        }
      }
      return 0;
    }

    /** The part of client_process before that; negative when it ends there. */
    method Prepare(env: Env) returns (result: int)
      modifies this
      ensures (View(), result == 0) == Ready(old(View()), env) && (result == 0 || result == -1)
    {
      ReadAll(env.arrived);
      if env.readEnd == ClosedOrFailed {
        return -1;
      }
      if !detected {
        if !HasMethod(inbuf) {
          return -1;
        }
        detected := true;
      }
      if state == WaitTask {
        state := Normal;
        Apply(env.callback);
        if env.callback.fails {
          return -1;
        }
      }
      if |outbuf| > 0 {
        result := WriteData(env.write);
        if result < 0 {
          return -1;
        }
      }
      if state == Drain && |outbuf| == 0 {
        return -1;
      }
      return 0;
    }

    /** client_process */
    method Process(env: Env) returns (result: int)
      modifies this
      ensures (View(), result) == Step(old(View()), env)
    {
      result := Prepare(env);
      if result < 0 {
        return result;
      }
      result := ServeOne(env);
    }
  }

  lemma Regroup(a: string, b: string, c: string)
    ensures a + (b + c) == a + b + c
  {
  }
}
