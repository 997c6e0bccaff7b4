/** What the requests of a stream are, told from its bytes: a method, a path, arguments behind the
    first '?', a space, and the rest of the headers up to the first empty line. */
module HttpRequests {
  import opened Common
  import opened Http

  const TERMINATOR := "\r\n\r\n"

  /** What may stand in a query. */
  predicate IsTarget(s: string) {
    forall i :: 0 <= i < |s| ==> s[i] !in " \r\n\0"
  }

  predicate Askable(r: Request) {
    && r.path != "" && r.path[0] == '/' && IsTarget(r.path) && '?' !in r.path
    && (r.args.Some? ==> IsTarget(r.args.value))
  }

  function Target(r: Request): string {
    r.path + if r.args.None? then "" else "?" + r.args.value
  }

  predicate IsMethod(m: string) {
    m == "GET " || m == "HEAD "
  }

  predicate TerminatorAt(s: string, i: nat) {
    i + 4 <= |s| && s[i] == '\r' && s[i + 1] == '\n' && s[i + 2] == '\r' && s[i + 3] == '\n'
  }

  /** The first empty line is at `n`, and no NUL comes before it. */
  ghost predicate EndsAt(s: string, n: nat) {
    && TerminatorAt(s, n)
    && (forall i :: 0 <= i < n ==> !TerminatorAt(s, i))
    && (forall i :: 0 <= i < n ==> s[i] != '\0')
  }

  /** `text` is a request for `r`, with everything up to and with the empty line. */
  ghost predicate Asks(text: string, r: Request) {
    Askable(r) && exists m, tail :: IsMethod(m) && Composed(text, m, r, tail)
  }

  ghost predicate Composed(text: string, m: string, r: Request, tail: string) {
    text == m + (Target(r) + (" " + tail)) && |tail| >= 4 && EndsAt(tail, |tail| - 4)
  }

  // ---------------------------------------------------------------- the end of the headers

  lemma TerminatorFirst(s: string)
    ensures TERMINATOR <= s <==> TerminatorAt(s, 0)
  {
    if TERMINATOR <= s {
      assert forall i :: 0 <= i < 4 ==> s[i] == s[..4][i] == TERMINATOR[i];
    }
    if TerminatorAt(s, 0) {
      assert s[..4] == TERMINATOR;
    }
  }

  lemma EndsTail(s: string, n: nat)
    requires s != "" && s[0] != '\0' && !TerminatorAt(s, 0)
    ensures EndsAt(s, n + 1) <==> EndsAt(s[1..], n)
  {
    if EndsAt(s[1..], n) {
      forall i | 0 <= i < n + 1
        ensures !TerminatorAt(s, i) && s[i] != '\0'
      {
        assert i > 0 ==> !TerminatorAt(s[1..], i - 1) && s[1..][i - 1] != '\0';
      }
    }
    if EndsAt(s, n + 1) {
      forall i | 0 <= i < n
        ensures !TerminatorAt(s[1..], i) && s[1..][i] != '\0'
      {
        assert !TerminatorAt(s, i + 1) && s[i + 1] != '\0';
      }
    }
  }

  /** strstr finds the first empty line, unless a NUL hides it. */
  lemma {:induction false} FindsEnd(s: string, n: nat)
    ensures FindEnd(s) == Some(n) <==> EndsAt(s, n)
    decreases |s|
  {
    if s != "" {
      TerminatorFirst(s);
      if s[0] != '\0' && !TerminatorAt(s, 0) && n > 0 {
        EndsTail(s, n - 1);
        FindsEnd(s[1..], n - 1);
      }
    }
  }

  /** Text without '\r' and NUL in front moves the end by its length. */
  lemma EndsBehind(front: string, s: string, n: nat)
    requires '\r' !in front && '\0' !in front
    ensures EndsAt(front + s, |front| + n) <==> EndsAt(s, n)
  {
    var t, k := front + s, |front|;
    assert forall i :: 0 <= i < k ==> t[i] == front[i] && t[i] in front;
    assert forall i :: 0 <= i < |s| ==> t[k + i] == s[i];
    if EndsAt(s, n) {
      forall i | 0 <= i < k + n
        ensures !TerminatorAt(t, i) && t[i] != '\0'
      {
        assert i >= k ==> !TerminatorAt(s, i - k) && s[i - k] != '\0';
      }
    }
    if EndsAt(t, k + n) {
      forall i | 0 <= i < n
        ensures !TerminatorAt(s, i) && s[i] != '\0'
      {
        assert !TerminatorAt(t, k + i) && t[k + i] != '\0';
      }
    }
  }

  // ---------------------------------------------------------------- the request line

  lemma {:induction false} QueryEnds(query: string, rest: string)
    requires IsTarget(query)
    ensures QueryLength(query + (" " + rest)) == Some(|query|)
    decreases |query|
  {
    var s := query + (" " + rest);
    if query != "" {
      assert query[0] !in " \r\n\0" && s[0] == query[0];
      assert s[1..] == query[1..] + (" " + rest);
      QueryEnds(query[1..], rest);
    }
  }

  lemma {:induction false} QueryIsTarget(s: string)
    requires QueryLength(s).Some?
    ensures IsTarget(s[..QueryLength(s).value])
    decreases |s|
  {
    var n := QueryLength(s).value;
    if n > 0 {
      QueryIsTarget(s[1..]);
      forall i | 0 <= i < n
        ensures s[i] !in " \r\n\0"
      {
        assert i > 0 ==> s[i] == s[1..][..n - 1][i - 1];
      }
    }
  }

  /** Splitting at the first '?' undoes joining path and arguments, and the other way round. */
  lemma {:induction false} SplitsTarget(path: string, args: Option<string>)
    requires '?' !in path
    ensures SplitQuery(Target(Request(path, args))) == Request(path, args)
    decreases |path|
  {
    var query := Target(Request(path, args));
    if path == "" {
      assert args.Some? ==> query[1..] == args.value;
    } else {
      assert query[1..] == Target(Request(path[1..], args));
      SplitsTarget(path[1..], args);
      assert [path[0]] + path[1..] == path;
    }
  }

  lemma {:induction false} SplitIsTarget(query: string)
    ensures var r := SplitQuery(query); Target(r) == query && '?' !in r.path
    decreases |query|
  {
    if query != "" && query[0] != '?' {
      var r := SplitQuery(query[1..]);
      SplitIsTarget(query[1..]);
      assert [query[0]] + r.path + (Target(r)[|r.path|..]) == query;
    }
  }

  lemma PartsAreTargets(r: Request)
    requires IsTarget(Target(r))
    ensures IsTarget(r.path) && (r.args.Some? ==> IsTarget(r.args.value))
  {
    var query := Target(r);
    assert forall i :: 0 <= i < |r.path| ==> r.path[i] == query[i];
    if r.args.Some? {
      assert forall i :: 0 <= i < |r.args.value| ==> r.args.value[i] == query[|r.path| + 1 + i];
    }
  }

  lemma TargetOfParts(r: Request)
    requires Askable(r)
    ensures IsTarget(Target(r)) && Target(r)[0] == '/'
  {
  }

  lemma MethodAt(m: string, rest: string)
    requires IsMethod(m)
    ensures var s := m + rest;
      HasMethod(s) && ("GET " <= s <==> m == "GET ") && s[if "GET " <= s then 4 else 5..] == rest
  {
    var s := m + rest;
    assert s[..|m|] == m && s[|m|..] == rest;
    StartsWith(s, "GET ");
    assert s[0] == m[0];
  }

  lemma StartsWith(s: string, what: string)
    requires what != ""
    ensures what <= s ==> s != "" && s[0] == what[0]
  {
    if what <= s {
      assert s[..|what|][0] == what[0];
    }
  }

  // ---------------------------------------------------------------- requests and their bytes

  lemma LineOf(m: string, r: Request, tail: string)
    requires IsMethod(m) && Askable(r)
    ensures RequestLine(m + (Target(r) + (" " + tail))) == Some(r)
  {
    var rest := Target(r) + (" " + tail);
    MethodAt(m, rest);
    TargetOfParts(r);
    QueryEnds(Target(r), tail);
    assert rest[..|Target(r)|] == Target(r) && rest[0] == '/';
    SplitsTarget(r.path, r.args);
  }

  lemma CleanFront(m: string, query: string)
    requires IsMethod(m) && IsTarget(query)
    ensures var front := m + query + " "; '\r' !in front && '\0' !in front
  {
  }

  lemma {:induction false} EndOfTail(front: string, tail: string, n: nat)
    requires '\r' !in front && '\0' !in front && EndsAt(tail, n)
    ensures FindEnd(front + tail) == Some(|front| + n)
  {
    EndsBehind(front, tail, n);
    FindsEnd(front + tail, |front| + n);
  }

  lemma {:induction false} EndOf(m: string, r: Request, tail: string, text: string)
    requires IsMethod(m) && Askable(r) && Composed(text, m, r, tail)
    ensures FindEnd(text) == Some(|text| - 4)
  {
    TargetOfParts(r);
    CleanFront(m, Target(r));
    assert text == m + Target(r) + " " + tail;
    EndOfTail(m + Target(r) + " ", tail, |tail| - 4);
  }

  lemma FramesText(text: string, r: Request)
    requires Asks(text, r)
    ensures Frame1(text) == Got(r, |text|)
  {
    var m, tail :| IsMethod(m) && Composed(text, m, r, tail);
    LineOf(m, r, tail);
    EndOf(m, r, tail, text);
  }

  lemma MethodOf(s: string)
    requires HasMethod(s)
    ensures var k := if "GET " <= s then 4 else 5; k <= |s| && IsMethod(s[..k])
  {
  }

  lemma FrontIsClean(s: string, k: nat)
    requires k <= |s| && IsMethod(s[..k]) && QueryLength(s[k..]).Some?
    ensures var m := k + QueryLength(s[k..]).value;
      m < |s| && s[m] == ' ' && '\r' !in s[..m + 1] && '\0' !in s[..m + 1]
  {
    var n := QueryLength(s[k..]).value;
    QueryIsTarget(s[k..]);
    forall i | 0 <= i < k + n + 1
      ensures s[i] != '\r' && s[i] != '\0'
    {
      if i < k {
        assert s[i] == s[..k][i];
      } else if i < k + n {
        assert s[i] == s[k..][..n][i - k];
      }
    }
  }

  lemma CutsThree(s: string, k: nat, m: nat)
    requires k <= m < |s| && s[m] == ' '
    ensures s == s[..k] + (s[k..m] + (" " + s[m + 1..]))
  {
  }

  lemma RequestOf(s: string)
    requires RequestLine(s).Some?
    ensures var k := if "GET " <= s then 4 else 5;
      && k <= |s| && IsMethod(s[..k]) && QueryLength(s[k..]).Some?
      && Askable(RequestLine(s).value) && Target(RequestLine(s).value) == s[k..][..QueryLength(s[k..]).value]
  {
    MethodOf(s);
    var k := if "GET " <= s then 4 else 5;
    var query := s[k..][..QueryLength(s[k..]).value];
    QueryIsTarget(s[k..]);
    SplitIsTarget(query);
    PartsAreTargets(SplitQuery(query));
    assert query != "" && query[0] == '/';
  }

  /** What is left behind clean text ends where the whole does. */
  lemma {:induction false} TailEnds(text: string, cut: nat, end: nat)
    requires FindEnd(text) == Some(end) && end + 4 == |text| && cut <= |text|
    requires '\r' !in text[..cut] && '\0' !in text[..cut]
    ensures cut <= end && EndsAt(text[cut..], end - cut)
  {
    FindsEnd(text, end);
    EndBehind(text, cut);
    assert text == text[..cut] + text[cut..];
    EndsBehind(text[..cut], text[cut..], end - cut);
  }

  lemma Composes(text: string, r: Request, k: nat, m: nat)
    requires k <= m < |text| && text[m] == ' ' && IsMethod(text[..k])
    requires Target(r) == text[k..m] && Askable(r)
    requires m + 1 <= |text| - 4 && EndsAt(text[m + 1..], |text| - 4 - (m + 1))
    ensures Asks(text, r)
  {
    CutsThree(text, k, m);
    assert Composed(text, text[..k], r, text[m + 1..]);
  }

  lemma TakeOfDrop(s: string, k: nat, n: nat)
    requires k + n <= |s|
    ensures s[k..k + n] == s[k..][..n]
  {
  }

  lemma {:induction false} TextOfLine(text: string, r: Request, k: nat, n: nat, end: nat)
    requires FindEnd(text) == Some(end) && end + 4 == |text|
    requires k <= |text| && IsMethod(text[..k]) && QueryLength(text[k..]) == Some(n)
    requires Askable(r) && Target(r) == text[k..][..n]
    ensures Asks(text, r)
  {
    FrontIsClean(text, k);
    TailEnds(text, k + n + 1, end);
    TakeOfDrop(text, k, n);
    Composes(text, r, k, k + n);
  }

  /** The bytes of a request that was read are one. */
  lemma {:induction false} TextOfFrame(text: string, r: Request)
    requires Frame1(text) == Got(r, |text|)
    ensures Asks(text, r)
  {
    RequestOf(text);
    var k := if "GET " <= text then 4 else 5;
    TextOfLine(text, r, k, QueryLength(text[k..]).value, FindEnd(text).value);
  }

  /** A request is read if and only if the bytes in front are a request for it: no more and no less
      than these are used, whatever comes behind. */
  lemma {:induction false} ReadsExactly(buf: string, r: Request, used: nat)
    ensures Frame1(buf) == Got(r, used) <==> used <= |buf| && Asks(buf[..used], r)
  {
    if used <= |buf| && Asks(buf[..used], r) {
      FramesText(buf[..used], r);
      GotStable(buf[..used], buf[used..]);
      assert buf[..used] + buf[used..] == buf;
    }
    if Frame1(buf) == Got(r, used) {
      FindEndShort(buf, used);
      assert buf[..used] + buf[used..] == buf;
      CutBehind(buf[..used], buf[used..], used);
      TextOfFrame(buf[..used], r);
    }
  }

  /** More bytes are asked for if and only if the headers have not ended and are within the limit;
      what is neither this nor a request is refused. */
  lemma {:induction false} AsksForMore(buf: string)
    ensures Frame1(buf).More? <==> |buf| <= 10240 && forall n: nat :: !EndsAt(buf, n)
    ensures Frame1(buf).Bad? <==> !Frame1(buf).More? && forall r, n: nat :: n <= |buf| ==> !Asks(buf[..n], r)
  {
    forall n: nat { FindsEnd(buf, n); }
    if FindEnd(buf).Some? {
      assert EndsAt(buf, FindEnd(buf).value);
    }
    forall r, n: nat | n <= |buf|
      ensures Asks(buf[..n], r) <==> Frame1(buf) == Got(r, n)
    {
      ReadsExactly(buf, r, n);
    }
    if Frame1(buf).Got? {
      assert Asks(buf[..Frame1(buf).used], Frame1(buf).request);
    }
  }

  // ---------------------------------------------------------------- streams of requests

  function Stream(texts: seq<string>): string {
    if texts == [] then "" else texts[0] + Stream(texts[1..])
  }

  ghost predicate AskInOrder(texts: seq<string>, requests: seq<Request>) {
    |texts| == |requests| && forall i :: 0 <= i < |texts| ==> Asks(texts[i], requests[i])
  }

  lemma {:induction false} FirstText(text: string, r: Request, rest: string)
    requires Asks(text, r)
    ensures FindEnd(text + rest).Some? && Batch(text + rest) == [r] + Batch(rest)
    ensures WithinLimit(text + rest) <==> |text| - 1 <= MAX_HEADER_SIZE && WithinLimit(rest)
  {
    FramesText(text, r);
    GotStable(text, rest);
  }

  lemma Associative<T>(a: seq<T>, b: seq<T>, c: seq<T>)
    ensures a + b + c == a + (b + c)
  {
  }

  /** The requests of a stream are those that its texts ask for, in order. */
  lemma {:induction false} ReadsStream(texts: seq<string>, requests: seq<Request>, rest: string)
    requires AskInOrder(texts, requests)
    ensures Batch(Stream(texts) + rest) == requests + Batch(rest)
    decreases |texts|
  {
    if texts == [] {
      assert "" + rest == rest && [] + Batch(rest) == Batch(rest);
    } else {
      ReadsStream(texts[1..], requests[1..], rest);
      FirstText(texts[0], requests[0], Stream(texts[1..]) + rest);
      Associative(texts[0], Stream(texts[1..]), rest);
      Associative([requests[0]], requests[1..], Batch(rest));
      assert [requests[0]] + requests[1..] == requests;
    }
  }

  lemma {:induction false} StreamCons(stream: string, used: nat, texts: seq<string>, rest: string)
    requires used <= |stream| && stream[used..] == Stream(texts) + rest
    ensures stream == Stream([stream[..used]] + texts) + rest
  {
    assert ([stream[..used]] + texts)[1..] == texts;
    assert stream == stream[..used] + stream[used..];
    Associative(stream[..used], Stream(texts), rest);
  }

  /** Every stream is a stream of requests, as far as it can be read. */
  lemma {:induction false} StreamOf(stream: string) returns (texts: seq<string>, rest: string)
    ensures AskInOrder(texts, Batch(stream)) && stream == Stream(texts) + rest
    ensures forall r, n: nat :: n <= |rest| ==> !Asks(rest[..n], r)
    decreases |stream|
  {
    if Frame1(stream).Got? {
      var f := Frame1(stream);
      ReadsExactly(stream, f.request, f.used);
      var texts';
      texts', rest := StreamOf(stream[f.used..]);
      texts := [stream[..f.used]] + texts';
      StreamCons(stream, f.used, texts', rest);
    } else {
      texts, rest := [], stream;
      forall r, n: nat | n <= |stream|
        ensures !Asks(stream[..n], r)
      {
        ReadsExactly(stream, r, n);
      }
    }
  }

  lemma {:induction false} StreamWithin(texts: seq<string>, requests: seq<Request>)
    requires AskInOrder(texts, requests) && forall i :: 0 <= i < |texts| ==> |texts[i]| <= 10241
    ensures WithinLimit(Stream(texts))
    decreases |texts|
  {
    if texts != [] {
      StreamWithin(texts[1..], requests[1..]);
      FirstText(texts[0], requests[0], Stream(texts[1..]));
    }
  }

  /** What clients send is what is dispatched: for every list of requests, with any headers of at
      most 10241 bytes each, and every way the bytes are cut in which the first read has a whole
      method, exactly these requests are dispatched, in order. */
  lemma {:induction false} RequestsDelivered(
      texts: seq<string>, requests: seq<Request>, chunks: seq<Chunk>, k: nat)
    requires AskInOrder(texts, requests) && forall i :: 0 <= i < |texts| ==> |texts[i]| <= 10241
    requires QuietCut(chunks, Stream(texts)) && k >= |requests|
    ensures Run(Run(CONNECTED, chunks), Polls(k)).dispatched == requests
  {
    var stream := Stream(texts);
    ReadsStream(texts, requests, "");
    assert stream + "" == stream && requests + Batch("") == requests;
    StreamWithin(texts, requests);
    AllDelivered(chunks, stream, k);
  }
}
