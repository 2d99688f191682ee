/**
The status page, and one whole request at a time: parse it, choose a handler, answer it and record it.
What handlers outside this model answer is a parameter of each request.
 */
module Sessions {
  import opened Wrappers
  import opened OrderedMaps
  import opened ConfigTree
  import opened ConfigNodes
  import opened RequestCounts
  import opened Routing
  import ConfigQueries
  import Decimal
  import HttpRequests
  import HttpReplies

  // ---------- the status page ----------

  const TITLE := "Status of web server:\n(URL - RESPONS_CODE: NUMBER_OF_REQUESTS)\n"
  const TOTAL := "total number of requests: "
  const HANDLERS := "Existing Handlers:\n(HANDLER - URL_PREFIX)\n"

  function StatusLines(m: Pairs<int, int>): string {
    if m == [] then ""
    else Decimal.ToString(m[0].0) + ": " + Decimal.ToString(m[0].1) + " requests\n" + StatusLines(m[1..])
  }

  function UriLines(c: Counts): string {
    if c == [] then "" else c[0].0 + " - " + StatusLines(c[0].1) + UriLines(c[1..])
  }

  function RequestInfo(c: Counts, total: int): string {
    TITLE + UriLines(c) + TOTAL + Decimal.ToString(total) + "\n\n"
  }

  /** `None` where a second token would be read that is not there. */
  function HandlerLines(hs: seq<Config>): Option<string> {
    if hs == [] then Some("") else
      var n := |hs| - 1;
      var front, name, location := HandlerLines(hs[..n]), Name(hs[n]), Location(hs[n]);
      if front.None? || name.None? || location.None? then None
      else Some(front.value + name.value + " - " + location.value + "\n")
  }

  lemma AppendStatus(text: string, s: string, n: string, rest: string)
    ensures text + (s + ": " + n + " requests\n" + rest) == text + s + ": " + n + " requests\n" + rest
  {}

  lemma AppendUri(text: string, uri: string, lines: string, rest: string)
    ensures text + (uri + " - " + lines + rest) == text + uri + " - " + lines + rest
  {}

  lemma AppendHandler(text: string, front: string, name: string, location: string)
    ensures text + (front + name + " - " + location + "\n") == text + front + name + " - " + location + "\n"
  {}

  lemma HandlerLinesSnoc(hs: seq<Config>, i: nat)
    requires i < |hs|
    ensures HandlerLines(hs[..i + 1]) ==
            var front, name, location := HandlerLines(hs[..i]), Name(hs[i]), Location(hs[i]);
            if front.None? || name.None? || location.None? then None
            else Some(front.value + name.value + " - " + location.value + "\n")
  {
    assert hs[..i + 1][..i] == hs[..i];
  }

  lemma {:induction false} HandlerLinesStop(hs: seq<Config>, i: nat)
    requires i < |hs| && HandlerLines(hs[..i + 1]).None?
    ensures HandlerLines(hs).None?
    decreases |hs|
  {
    if i + 1 == |hs| {
      assert hs[..i + 1] == hs;
    } else {
      assert hs[..|hs| - 1][..i + 1] == hs[..i + 1];
      HandlerLinesStop(hs[..|hs| - 1], i);
    }
  }

  class StatusHandler {
    var requestInfoMap: RequestMap
    var handlers: seq<NginxConfig>

    constructor (requestInfoMap: RequestMap, handlers: seq<NginxConfig>)
      ensures this.requestInfoMap == requestInfoMap && this.handlers == handlers
    {
      this.requestInfoMap, this.handlers := requestInfoMap, handlers;
    }

    /** The total it prints is the number of requests handled so far. */
    method RequestInfoToString() returns (text: string)
      requires requestInfoMap.Valid()
      ensures text == RequestInfo(requestInfoMap.counts, |requestInfoMap.log|)
    {
      text := TITLE;
      var totalCount, c := 0, requestInfoMap.counts;
      TotalIsLength(c, requestInfoMap.log);
      hide Records, Decimal.ToString;
      for i := 0 to |c|
        invariant text + UriLines(c[i..]) == TITLE + UriLines(c)
        invariant totalCount + Total(c[i..]) == Total(c)
      {
        assert c[i..][1..] == c[i + 1..];
        AppendUri(text, c[i].0, StatusLines(c[i].1), UriLines(c[i + 1..]));
        var linesTotal;
        text, linesTotal := AppendStatuses(text + c[i].0 + " - ", c[i].1);
        totalCount := totalCount + linesTotal;
      }
      assert text + "" == text;
      text := text + TOTAL + Decimal.ToString(totalCount) + "\n\n";
    }

    method AppendStatuses(text: string, m: Pairs<int, int>) returns (r: string, total: int)
      ensures r == text + StatusLines(m) && total == Requests(m)
    {
      r, total := text, 0;
      for i := 0 to |m|
        invariant r + StatusLines(m[i..]) == text + StatusLines(m)
        invariant total + Requests(m[i..]) == Requests(m)
      {
        assert m[i..][1..] == m[i + 1..];
        AppendStatus(r, Decimal.ToString(m[i].0), Decimal.ToString(m[i].1), StatusLines(m[i + 1..]));
        r := r + Decimal.ToString(m[i].0) + ": " + Decimal.ToString(m[i].1) + " requests\n";
        total := total + m[i].1;
      }
      assert r + "" == r;
    }

    method HandlersToString(ghost known: seq<Shape>) returns (r: Option<string>)
      requires AllHeld(handlers, known)
      ensures r == match HandlerLines(EraseAll(known)) case None => None case Some(t) => Some(HANDLERS + t)
    {
      var text := HANDLERS;
      ghost var hs := EraseAll(known);
      EraseAllAt(known);
      ShapesAllocated(known);
      hide Erase, EraseAll, Nodes, Holds, Footprint, ConfigQueries.FindKey;
      assert hs[..0] == [] && HANDLERS + "" == HANDLERS;
      for i := 0 to |handlers|
        invariant AllHeld(handlers, known)
        invariant HandlerLines(hs[..i]).Some? && text == HANDLERS + HandlerLines(hs[..i]).value
      {
        HandlerLinesSnoc(hs, i);
        assert HeldAs(handlers[i], known[i]);
        var name := FindOne(handlers[i], "name", known[i].statements);
        assert AllHeld(handlers, known);
        assert HeldAs(handlers[i], known[i]);
        var location := FindOne(handlers[i], "location", known[i].statements);
        if name.None? || location.None? { HandlerLinesStop(hs, i); return None; }
        AppendHandler(HANDLERS, HandlerLines(hs[..i]).value, name.value, location.value);
        text := text + name.value + " - " + location.value + "\n";
      }
      assert hs[..|hs|] == hs;
      r := Some(text);
    }
  }

  // ---------- one request ----------

  /** A reply, as a value. */
  datatype Answer = Answer(status: int, headers: HttpReplies.HeaderMap, body: string)

  const TEXT: HttpReplies.HeaderMap := [("Content-Type", "text/plain")]
  const NOT_FOUND := Answer(404, TEXT, "404 NOT FOUND\r\n")
  const BAD_REQUEST := Answer(400, TEXT, "400 BAD REQUEST\r\n")

  /** The handlers that are not part of this model. */
  const OUTSIDE: set<string> := {"echo", "static", "reverse_proxy", "sleep", "meme", "health_check"}

  /** The text of a request, and what a handler outside this model answers to it, if it answers. */
  datatype Event = Event(message: string, outside: Option<Answer>)

  function UriOf(message: string): string {
    match HttpRequests.Parse(message) case None => "" case Some(p) => p.uri
  }

  function StatusPage(c: Config, counts: Counts): Option<Answer> {
    match HandlerLines(ConfigQueries.FindBlocksKey(c, "handler"))
    case None => None
    case Some(lines) => Some(Answer(200, TEXT, RequestInfo(counts, Total(counts)) + (HANDLERS + lines)))
  }

  /** The answer of the handler with the given name; `None` where there is no such handler. */
  function AnswerOf(c: Config, counts: Counts, name: string, outside: Option<Answer>): Option<Answer> {
    if name == "status" then StatusPage(c, counts)
    else if name == "not_found" then Some(NOT_FOUND)
    else if name == "bad_request" then Some(BAD_REQUEST)
    else if name in OUTSIDE then (if outside.Some? then outside else Some(NOT_FOUND))
    else None
  }

  /** The name of the handler for a valid request; `None` where nothing matches or the scan reads too far. */
  function RouteOf(c: Config, uri: string): Option<string> {
    match Select(ConfigQueries.FindBlocksKey(c, "handler"), uri)
    case None => None
    case Some(best) => if best.handler.None? then None else Some(best.name)
  }

  /** What one request is answered; `None` where the program has no defined behaviour. */
  function Serve(c: Config, counts: Counts, e: Event): Option<Answer> {
    if ConfigQueries.FindKey(c, "root").None? then None else
      match HttpRequests.Parse(e.message)
      case None => Some(BAD_REQUEST)
      case Some(p) =>
        match RouteOf(c, p.uri)
        case None => None
        case Some(name) => AnswerOf(c, counts, name, e.outside)
  }

  /** The record behind one request. */
  function Next(c: Config, counts: Counts, e: Event): Counts {
    match Serve(c, counts, e)
    case None => counts
    case Some(a) => Record(counts, UriOf(e.message), a.status)
  }

  class Session {
    const config: NginxConfig
    const requestMap: RequestMap

    constructor (config: NginxConfig, requestMap: RequestMap)
      ensures this.config == config && this.requestMap == requestMap
    {
      this.config, this.requestMap := config, requestMap;
    }

    method Make(a: Answer) returns (reply: HttpReplies.Reply)
      ensures fresh(reply) && reply.Valid() && reply.statusCode == a.status && reply.headers == a.headers && reply.body == a.body
    {
      reply := new HttpReplies.Reply();
      reply.SetStatus(a.status);
      reply.headers := a.headers;
      reply.SetBody(a.body);
    }

    /** `createByName` and the answer of what it creates. */
    method Dispatch(name: string, handlers: seq<NginxConfig>, outside: Option<Answer>,
                    ghost c: Config, ghost known: seq<Shape>) returns (r: Option<Answer>)
      requires requestMap.Valid() && AllHeld(handlers, known)
      requires EraseAll(known) == ConfigQueries.FindBlocksKey(c, "handler")
      ensures r == AnswerOf(c, requestMap.counts, name, outside)
    {
      if name == "status" {
        TotalIsLength(requestMap.counts, requestMap.log);
        hide Records, EraseAll, ShapesFootprint, HandlerLines, RequestInfo, ConfigQueries.FindBlocksKey;
        ShapesAllocated(known);
        var handler := new StatusHandler(requestMap, handlers);
        var info := handler.RequestInfoToString();
        assert AllHeld(handlers, known);
        var lines := handler.HandlersToString(known);
        if lines.None? { return None; }
        r := Some(Answer(200, TEXT, info + lines.value));
      } else if name == "not_found" {
        r := Some(NOT_FOUND);
      } else if name == "bad_request" {
        r := Some(BAD_REQUEST);
      } else if name in OUTSIDE {
        r := if outside.Some? then outside else Some(NOT_FOUND);
      } else {
        r := None;
      }
    }

    /** `handle_request`, up to the text it writes to the socket. */
    method HandleRequest(e: Event, ghost ss: seq<StatementShape>) returns (text: Option<string>)
      requires requestMap.Valid() && config.statements == Nodes(ss) && Holds(ss)
      modifies requestMap
      ensures requestMap.Valid()
      ensures match Serve(Erase(ss), old(requestMap.counts), e)
              case None => text == None && requestMap.log == old(requestMap.log)
              case Some(a) =>
                && text == Some(HttpReplies.ReplyText(a.status, a.headers, a.body))
                && requestMap.log == old(requestMap.log) + [(UriOf(e.message), a.status)]
      ensures requestMap.counts == Next(Erase(ss), old(requestMap.counts), e)
    {
      FootprintAllocated(ss);
      HttpRequests.ParsesIffValid(e.message);
      hide Erase, Nodes, Holds, Footprint, EraseAll, Records, RouteOf, AnswerOf, Select, HttpRequests.Parse, HttpRequests.IsValid, HttpReplies.ReplyText;
      var root := FindOne(config, "root", ss);
      if root.None? { return None; }
      var request := HttpRequests.ParseRequest(e.message);
      var answer := Some(BAD_REQUEST);
      if request.valid {
        answer := Answered(request.uri, e, ss);
        if answer.None? { return None; }
      }
      var reply := Make(answer.value);
      requestMap.Add(request.uri, reply.statusCode);
      var written := reply.ToString();
      text := Some(written);
    }

    /** The answer to a valid request. */
    method Answered(uri: string, e: Event, ghost ss: seq<StatementShape>) returns (answer: Option<Answer>)
      requires requestMap.Valid() && config.statements == Nodes(ss) && Holds(ss)
      ensures answer == match RouteOf(Erase(ss), uri)
                        case None => None
                        case Some(name) => AnswerOf(Erase(ss), requestMap.counts, name, e.outside)
    {
      hide Erase, Nodes, Holds, Footprint, EraseAll, Records, AnswerOf, Select;
      hide Text.Split, Found, ConfigQueries.FindBlocks;
      var path := Text.Split("handler", {'.'});
      ghost var known := Found(ss, path);
      FoundHeld(ss, path);
      FoundErases(ss, path, []);
      assert [] + known == known && EraseAll([]) == [] by { NothingErased(known); }
      ShapesAllocated(known);
      var handlers := config.FindBlocks(path, [], ss);
      ShapesAllocated(known);
      var best := SelectHandler(handlers, uri, known);
      if best.None? || best.value.handler.None? { return None; }
      answer := Dispatch(best.value.name, handlers, e.outside, Erase(ss), known);
    }
  }

  lemma NothingErased(known: seq<Shape>)
    ensures [] + known == known && EraseAll([]) == [] && [] + Configs(known) == Configs(known)
  {}

  // ---------- every run ----------

  /** The record after a run of requests; `None` where the program has no defined behaviour. */
  function Run(c: Config, counts: Counts, events: seq<Event>): Option<Counts> {
    if events == [] then Some(counts) else
      var n := |events| - 1;
      match Run(c, counts, events[..n])
      case None => None
      case Some(before) =>
        if Serve(c, before, events[n]).None? then None else Some(Next(c, before, events[n]))
  }

  /** The status of the answer to one request, for which the record does not matter. */
  function StatusOf(c: Config, e: Event): Option<int> {
    match Serve(c, [], e) case None => None case Some(a) => Some(a.status)
  }

  lemma StatusNeedsNoRecord(c: Config, counts: Counts, e: Event)
    ensures Serve(c, counts, e).Some? <==> StatusOf(c, e).Some?
    ensures Serve(c, counts, e).Some? ==> Serve(c, counts, e).value.status == StatusOf(c, e).value
  {
    hide HandlerLines, Select, ConfigQueries.FindKey, ConfigQueries.FindBlocksKey, HttpRequests.Parse, RequestInfo;
  }

  ghost predicate AllAnswered(c: Config, events: seq<Event>) {
    forall i :: 0 <= i < |events| ==> StatusOf(c, events[i]).Some?
  }

  function Logged(c: Config, e: Event): Handled
    requires StatusOf(c, e).Some?
  {
    (UriOf(e.message), StatusOf(c, e).value)
  }

  function LogOf(c: Config, events: seq<Event>): seq<Handled>
    requires AllAnswered(c, events)
  {
    seq(|events|, i requires 0 <= i < |events| => Logged(c, events[i]))
  }

  /**
  After every run, the record holds for each uri and status the number of requests with that uri that were
  answered with that status; there is a record exactly when every request has an answer.
  */
  lemma {:induction false} RunCountsRequests(c: Config, events: seq<Event>)
    ensures Run(c, [], events).Some? <==> AllAnswered(c, events)
    ensures AllAnswered(c, events) ==> Records(Run(c, [], events).value, LogOf(c, events))
    decreases |events|
  {
    hide Records, Serve, Record;
    if events == [] {
      CountsEveryRun([]);
      assert AllAnswered(c, events) && LogOf(c, events) == [];
    } else {
      var n := |events| - 1;
      var front, e := events[..n], events[n];
      RunCountsRequests(c, front);
      var before := Run(c, [], front);
      assert AllAnswered(c, events) <==> AllAnswered(c, front) && StatusOf(c, e).Some? by {
        assert events == front + [e];
      }
      if before.Some? {
        StatusNeedsNoRecord(c, before.value, e);
        if StatusOf(c, e).Some? {
          assert LogOf(c, events) == LogOf(c, front) + [Logged(c, e)];
          RecordOne(before.value, LogOf(c, front), UriOf(e.message), StatusOf(c, e).value);
        }
      }
    }
  }

  /** Requests that come in another order leave the same record. */
  lemma RunIgnoresOrder(c: Config, events: seq<Event>, events': seq<Event>)
    requires multiset(events) == multiset(events')
    ensures Run(c, [], events') == Run(c, [], events)
  {
    hide Run, StatusOf, LogOf, Records;
    RunCountsRequests(c, events);
    RunCountsRequests(c, events');
    if AllAnswered(c, events') { AllAnsweredEither(c, events', events); }
    if AllAnswered(c, events) {
      AllAnsweredEither(c, events, events');
      LogsAgree(c, events, events');
      RecordIsUnique(Run(c, [], events).value, LogOf(c, events), Run(c, [], events').value, LogOf(c, events'));
    }
  }

  lemma AllAnsweredEither(c: Config, events: seq<Event>, events': seq<Event>)
    requires multiset(events) == multiset(events') && AllAnswered(c, events)
    ensures AllAnswered(c, events')
  {
    hide StatusOf;
    forall i | 0 <= i < |events'| ensures StatusOf(c, events'[i]).Some? {
      assert events'[i] in multiset(events);
    }
  }

  function Without<T>(s: seq<T>, k: nat): seq<T>
    requires k < |s|
  {
    s[..k] + s[k + 1..]
  }

  lemma Cut<T>(s: seq<T>, k: nat)
    requires k < |s|
    ensures multiset(s) == multiset(Without(s, k)) + multiset{s[k]}
  {
    assert s == s[..k] + [s[k]] + s[k + 1..];
    MiddleIsLast(s[..k], s[k], s[k + 1..]);
  }

  lemma Cancel<T>(m: multiset<T>, n: multiset<T>, e: T)
    requires m + multiset{e} == n + multiset{e}
    ensures m == n
  {
    assert m == (m + multiset{e}) - multiset{e};
    assert n == (n + multiset{e}) - multiset{e};
  }

  /** The last element of `s`, found and taken out of `t`. */
  lemma TakeOut<T>(s: seq<T>, t: seq<T>) returns (k: nat)
    requires s != [] && multiset(s) == multiset(t)
    ensures k < |t| && t[k] == s[|s| - 1]
    ensures multiset(Without(s, |s| - 1)) == multiset(Without(t, k))
  {
    var n := |s| - 1;
    assert s[n] in multiset(s);
    k :| 0 <= k < |t| && t[k] == s[n];
    Cut(s, n);
    Cut(t, k);
    Cancel(multiset(Without(s, n)), multiset(Without(t, k)), s[n]);
  }

  lemma MiddleIsLast<T>(a: seq<T>, e: T, b: seq<T>)
    ensures multiset(a + [e] + b) == multiset(a + b) + multiset{e}
  {}

  /** Taking a request out of a run takes its entry out of the log. */
  lemma LogWithout(c: Config, events: seq<Event>, k: nat)
    requires AllAnswered(c, events) && k < |events|
    ensures AllAnswered(c, Without(events, k))
    ensures multiset(LogOf(c, events)) == multiset(LogOf(c, Without(events, k))) + multiset{Logged(c, events[k])}
  {
    hide StatusOf, Logged;
    var less := Without(events, k);
    forall i | 0 <= i < |less| ensures less[i] == events[if i < k then i else i + 1] {}
    assert LogOf(c, less) == Without(LogOf(c, events), k);
    Cut(LogOf(c, events), k);
  }

  lemma {:induction false} LogsAgree(c: Config, events: seq<Event>, events': seq<Event>)
    requires multiset(events) == multiset(events') && AllAnswered(c, events) && AllAnswered(c, events')
    ensures multiset(LogOf(c, events)) == multiset(LogOf(c, events'))
    decreases |events|
  {
    hide StatusOf, LogOf, Logged;
    if events == [] {
      assert |events'| == |multiset(events)| == 0;
    } else {
      var k := TakeOut(events, events');
      LogWithout(c, events, |events| - 1);
      LogWithout(c, events', k);
      LogsAgree(c, Without(events, |events| - 1), Without(events', k));
    }
  }

  /**
  The status page shows the requests before its own: its total is their number, and its own request is in
  the record only from then on.
  */
  lemma StatusPageCountsBefore(c: Config, events: seq<Event>, e: Event)
    requires AllAnswered(c, events) && StatusOf(c, e).Some?
    requires HttpRequests.Parse(e.message).Some? && RouteOf(c, UriOf(e.message)) == Some("status")
    ensures Run(c, [], events).Some? && AllAnswered(c, events + [e]) && Run(c, [], events + [e]).Some?
    ensures var counts := Run(c, [], events).value;
            var lines := HandlerLines(ConfigQueries.FindBlocksKey(c, "handler"));
            && Records(counts, LogOf(c, events))
            && lines.Some?
            && Serve(c, counts, e) == Some(Answer(200, TEXT, RequestInfo(counts, |events|) + (HANDLERS + lines.value)))
            && Total(Run(c, [], events + [e]).value) == |events| + 1
  {
    var longer := events + [e];
    forall i | 0 <= i < |longer| ensures StatusOf(c, longer[i]).Some? {
      assert i < |events| ==> longer[i] == events[i];
    }
    RunCountsRequests(c, events);
    RunCountsRequests(c, longer);
    var counts := Run(c, [], events).value;
    StatusNeedsNoRecord(c, counts, e);
    TotalIsLength(counts, LogOf(c, events));
    TotalIsLength(Run(c, [], longer).value, LogOf(c, longer));
    PageAnswer(c, counts, e);
  }

  lemma PageAnswer(c: Config, counts: Counts, e: Event)
    requires HttpRequests.Parse(e.message).Some? && RouteOf(c, UriOf(e.message)) == Some("status")
    requires Serve(c, counts, e).Some?
    ensures Serve(c, counts, e) == StatusPage(c, counts)
  {
    hide StatusPage, RouteOf, HttpRequests.Parse, ConfigQueries.FindKey;
  }

  /** The empty uri stands for the requests that were not valid, and for nothing else. */
  lemma EmptyUriIsBadRequests(c: Config, events: seq<Event>)
    requires AllAnswered(c, events)
    ensures Run(c, [], events).Some?
    ensures var counts := Run(c, [], events).value;
            && (Get(counts, "").Some? <==> exists i :: 0 <= i < |events| && HttpRequests.Parse(events[i].message).None?)
            && forall status :: Get(Statuses(counts, ""), status).Some? ==> status == 400
  {
    RunCountsRequests(c, events);
    var counts, log := Run(c, [], events).value, LogOf(c, events);
    StoredIffHandled(counts, log, "");
    hide HttpRequests.Parse, RouteOf, AnswerOf, ConfigQueries.FindKey, Records, Run;
    forall i | 0 <= i < |events|
      ensures (log[i].0 == "" <==> HttpRequests.Parse(events[i].message).None?) && (log[i].0 == "" ==> log[i].1 == 400)
    {
      if HttpRequests.Parse(events[i].message).Some? { HttpRequests.ValidHasUri(events[i].message); }
    }
    forall i | 0 <= i < |events| && HttpRequests.Parse(events[i].message).None? ensures ("", 400) in log {
      assert log[i] == ("", 400);
    }
  }
}
