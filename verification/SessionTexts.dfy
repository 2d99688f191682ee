/**
Configurations, routes, replies and the status page as they are written: the words that are looked for, and
the texts that are sent.
 */
module SessionTexts {
  import opened Wrappers
  import opened Text
  import opened OrderedMaps
  import opened ConfigTree
  import opened RequestCounts
  import opened Routing
  import opened Sessions
  import ConfigQueries
  import Decimal
  import HttpReplies
  import HttpRequests

  // ---------- the words that are looked for ----------

  /** The location of a handler is its last statement `location`, and its name its last statement `name`. */
  lemma LocationAndName(h: Config)
    ensures ConfigQueries.IsLastMatch(ConfigQueries.Entries(h, []), ["location"], "", Location(h))
    ensures ConfigQueries.IsLastMatch(ConfigQueries.Entries(h, []), ["name"], "", Name(h))
  {
    hide ConfigQueries.FindKey, ConfigQueries.Find, ConfigQueries.IsLastMatch, ConfigQueries.Entries;
    ConfigQueries.PlainKey(h, "location");
    ConfigQueries.PlainKey(h, "name");
    ConfigQueries.FindIsLastMatch(h, ["location"], "");
    ConfigQueries.FindIsLastMatch(h, ["name"], "");
  }

  /** The handlers are the blocks of the outermost statements `handler`, wherever they are. */
  lemma HandlersOf(c: Config)
    ensures ConfigQueries.FindBlocksKey(c, "handler") == ConfigQueries.Selected(ConfigQueries.Entries(c, []), ["handler"])
  {
    hide ConfigQueries.FindBlocksKey, ConfigQueries.FindBlocks, ConfigQueries.Selected, ConfigQueries.Entries;
    ConfigQueries.PlainKey(c, "handler");
    ConfigQueries.FindBlocksIsFirstContainment(c, ["handler"], []);
    assert ConfigQueries.Collapse(["handler"]) == ["handler"];
    var s := ConfigQueries.Selected(ConfigQueries.Entries(c, []), ["handler"]);
    assert [] + s == s;
  }

  // ---------- a configuration with a list of handlers ----------

  datatype Spec = Spec(name: string, location: string)

  function Body(h: Spec): Config { [Line(["name", h.name]), Line(["location", h.location])] }

  function Bodies(specs: seq<Spec>): seq<Config> {
    if specs == [] then [] else [Body(specs[0])] + Bodies(specs[1..])
  }

  function Blocks(specs: seq<Spec>): Config {
    if specs == [] then [] else [Block(["handler", specs[0].name], Body(specs[0]))] + Blocks(specs[1..])
  }

  function Configuration(root: string, specs: seq<Spec>): Config { [Line(["root", root])] + Blocks(specs) }

  lemma FindInTwo(h: Spec, key: string)
    ensures ConfigQueries.Find(Body(h), [key], "") ==
            Some(if key == "location" then h.location else if key == "name" then h.name else "")
  {
    var c := Body(h);
    assert c[1..] == [c[1]] && c[1..][1..] == [];
    var v := if key == "name" then h.name else "";
    assert ConfigQueries.FindInStatement(c[0], [key], "") == Some(v);
    assert ConfigQueries.FindInStatement(c[1], [key], v) == Some(if key == "location" then h.location else v);
    hide ConfigQueries.FindInStatement;
    assert ConfigQueries.Find([c[1]], [key], v)
        == ConfigQueries.Find([], [key], if key == "location" then h.location else v);
  }

  lemma BodyReads(h: Spec)
    ensures Location(Body(h)) == Some(h.location) && Name(Body(h)) == Some(h.name)
  {
    hide ConfigQueries.FindKey, ConfigQueries.Find, Body;
    ConfigQueries.PlainKey(Body(h), "location");
    ConfigQueries.PlainKey(Body(h), "name");
    FindInTwo(h, "location");
    FindInTwo(h, "name");
  }

  lemma {:induction false} FindsBodies(specs: seq<Spec>, blocks: seq<Config>)
    ensures ConfigQueries.FindBlocks(Blocks(specs), ["handler"], blocks) == blocks + Bodies(specs)
    decreases |specs|
  {
    hide Body;
    if specs == [] {
      assert blocks + [] == blocks;
    } else {
      var c := Blocks(specs);
      assert c[1..] == Blocks(specs[1..]);
      assert ConfigQueries.FindBlocksInStatement(c[0], ["handler"], blocks) == blocks + [Body(specs[0])];
      FindsBodies(specs[1..], blocks + [Body(specs[0])]);
      assert blocks + [Body(specs[0])] + Bodies(specs[1..]) == blocks + ([Body(specs[0])] + Bodies(specs[1..]));
    }
  }

  lemma {:induction false} NoRootInBlocks(specs: seq<Spec>, v: string)
    ensures ConfigQueries.Find(Blocks(specs), ["root"], v) == Some(v)
    decreases |specs|
  {
    hide Body;
    if specs != [] {
      var c := Blocks(specs);
      assert c[1..] == Blocks(specs[1..]);
      assert ConfigQueries.FindInStatement(c[0], ["root"], v) == Some(v);
      NoRootInBlocks(specs[1..], v);
    }
  }

  lemma ConfigurationReads(root: string, specs: seq<Spec>)
    ensures ConfigQueries.FindKey(Configuration(root, specs), "root") == Some(root)
    ensures ConfigQueries.FindBlocksKey(Configuration(root, specs), "handler") == Bodies(specs)
  {
    var c := Configuration(root, specs);
    assert c[1..] == Blocks(specs);
    assert ConfigQueries.FindInStatement(c[0], ["root"], "") == Some(root);
    assert ConfigQueries.FindBlocksInStatement(c[0], ["handler"], []) == [];
    hide Blocks, Bodies, ConfigQueries.FindInStatement, ConfigQueries.FindBlocksInStatement;
    ConfigQueries.PlainKey(c, "root");
    ConfigQueries.PlainKey(c, "handler");
    NoRootInBlocks(specs, root);
    FindsBodies(specs, []);
    assert [] + Bodies(specs) == Bodies(specs);
  }

  lemma {:induction false} BodiesAt(specs: seq<Spec>)
    ensures |Bodies(specs)| == |specs| && forall i :: 0 <= i < |specs| ==> Bodies(specs)[i] == Body(specs[i])
  {
    hide Body;
    if specs != [] { BodiesAt(specs[1..]); }
  }

  /** The location of the handler begins the uri, no other one that does is longer, and none in front as long. */
  ghost predicate IsRoute(specs: seq<Spec>, uri: string, i: nat) {
    && i < |specs| && specs[i].location != "" && specs[i].location <= uri
    && forall j :: 0 <= j < |specs| && j != i && specs[j].location <= uri ==>
         |specs[j].location| < |specs[i].location| || (j > i && |specs[j].location| == |specs[i].location|)
  }

  lemma RouteWins(specs: seq<Spec>, uri: string, i: nat)
    requires IsRoute(specs, uri, i)
    ensures Wins(Bodies(specs), uri, i) && !ReadsTooFar(Bodies(specs), uri)
  {
    var hs := Bodies(specs);
    BodiesAt(specs);
    forall j | 0 <= j < |specs|
      ensures Location(hs[j]) == Some(specs[j].location) && Name(hs[j]) == Some(specs[j].name)
    {
      BodyReads(specs[j]);
    }
    hide Location, Name, Bodies, Body;
    assert Leads(hs, uri, i);
  }

  lemma OneWinner(hs: seq<Config>, uri: string, i: nat, k: nat)
    requires Wins(hs, uri, i) && Wins(hs, uri, k)
    ensures i == k
  {
    hide Location, Name;
    assert Matches(hs[i], uri) && Matches(hs[k], uri);
  }

  /** A request goes to the handler whose location is the longest beginning of its uri, the first of equal ones. */
  lemma RoutedByLocation(root: string, specs: seq<Spec>, uri: string, i: nat)
    requires IsRoute(specs, uri, i)
    ensures RouteOf(Configuration(root, specs), uri) == Some(specs[i].name)
  {
    var hs := Bodies(specs);
    ConfigurationReads(root, specs);
    RouteWins(specs, uri, i);
    SelectChoosesWinner(hs, uri);
    BodiesAt(specs);
    BodyReads(specs[i]);
    hide Location, Name, Select, Bodies, Body, Configuration, Wins, ReadsTooFar, ConfigQueries.FindBlocksKey;
    var best := Select(hs, uri).value;
    if best.handler.None? {
      WinnerMatches(hs, uri, i);
    } else {
      OneWinner(hs, uri, i, best.handler.value);
    }
  }

  lemma WinnerMatches(hs: seq<Config>, uri: string, i: nat)
    requires Wins(hs, uri, i)
    ensures i < |hs| && Matches(hs[i], uri)
  {}

  /** No location begins the uri: there is no handler, and no defined answer. */
  lemma NotRouted(root: string, specs: seq<Spec>, uri: string)
    requires forall j :: 0 <= j < |specs| ==> specs[j].location == "" || !(specs[j].location <= uri)
    ensures RouteOf(Configuration(root, specs), uri) == None
  {
    var hs := Bodies(specs);
    ConfigurationReads(root, specs);
    BodiesAt(specs);
    forall j | 0 <= j < |specs| ensures !Matches(hs[j], uri) {
      BodyReads(specs[j]);
    }
    SelectChoosesWinner(hs, uri);
    hide Location, Name, Select, Bodies, Body, Matches;
    if Select(hs, uri).Some? && Select(hs, uri).value.handler.Some? {
      WinnerMatches(hs, uri, Select(hs, uri).value.handler.value);
    }
  }

  // ---------- the replies ----------

  lemma ThreeDigits()
    ensures Decimal.ToString(200) == "200" && Decimal.ToString(400) == "400" && Decimal.ToString(404) == "404"
  {
    hide Decimal.ToString;
    Decimal.WrittenInDigits(0, 2);
    Decimal.WrittenInDigits(2, 0);
    Decimal.WrittenInDigits(20, 0);
    Decimal.WrittenInDigits(0, 4);
    Decimal.WrittenInDigits(4, 0);
    Decimal.WrittenInDigits(40, 0);
    Decimal.WrittenInDigits(40, 4);
    assert "2" + "0" == "20" && "20" + "0" == "200" && "4" + "0" == "40" && "40" + "0" == "400" && "40" + "4" == "404";
  }

  /** A reply of plain text. */
  lemma PlainReply(status: int, body: string)
    ensures HttpReplies.ReplyText(status, TEXT, body)
         == HttpReplies.StatusLine(status) + "\r\nContent-Type: text/plain\r\n\r\n" + body
  {
    hide HttpReplies.StatusLine;
    var h: HttpReplies.Headers := TEXT;
    assert h == [("Content-Type", "text/plain")] && h[1..] == [];
    assert "Content-Type" + ": " + "text/plain" + "\r\n" + "" == "Content-Type: text/plain\r\n";
    assert HttpReplies.HeaderText(h) == "Content-Type: text/plain\r\n";
    hide HttpReplies.HeaderText;
    Assembled(HttpReplies.StatusLine(status), body);
  }

  lemma Assembled(line: string, body: string)
    ensures line + "\r\n" + "Content-Type: text/plain\r\n" + "\r\n" + body
         == line + "\r\nContent-Type: text/plain\r\n\r\n" + body
  {
    assert "\r\n" + "Content-Type: text/plain\r\n" + "\r\n" == "\r\nContent-Type: text/plain\r\n\r\n";
    assert line + "\r\n" + "Content-Type: text/plain\r\n" + "\r\n"
        == line + ("\r\n" + "Content-Type: text/plain\r\n" + "\r\n");
  }

  lemma StatusLines3()
    ensures HttpReplies.StatusLine(200) == "HTTP/1.1 200 OK"
    ensures HttpReplies.StatusLine(400) == "HTTP/1.1 400 "
    ensures HttpReplies.StatusLine(404) == "HTTP/1.1 404 "
  {
    hide Decimal.ToString, HttpReplies.StatusLine;
    ThreeDigits();
    HttpReplies.StatusLineIs(200);
    HttpReplies.StatusLineIs(400);
    HttpReplies.StatusLineIs(404);
  }

  function TextOf(a: Answer): string { HttpReplies.ReplyText(a.status, a.headers, a.body) }

  /** The two error pages, and the head of the status page. */
  lemma ErrorReplies(page: string)
    ensures TextOf(BAD_REQUEST) == "HTTP/1.1 400 " + "\r\nContent-Type: text/plain\r\n\r\n" + "400 BAD REQUEST\r\n"
    ensures TextOf(NOT_FOUND) == "HTTP/1.1 404 " + "\r\nContent-Type: text/plain\r\n\r\n" + "404 NOT FOUND\r\n"
    ensures TextOf(Answer(200, TEXT, page)) == "HTTP/1.1 200 OK" + "\r\nContent-Type: text/plain\r\n\r\n" + page
  {
    hide HttpReplies.StatusLine, HttpReplies.ReplyText;
    StatusLines3();
    PlainReply(400, "400 BAD REQUEST\r\n");
    PlainReply(404, "404 NOT FOUND\r\n");
    PlainReply(200, page);
  }

  /** An invalid request is answered with the page for bad requests, whatever handlers there are. */
  lemma InvalidIsBadRequest(root: string, specs: seq<Spec>, counts: Counts, e: Event)
    requires HttpRequests.Parse(e.message).None?
    ensures var a := Serve(Configuration(root, specs), counts, e);
            && a.Some?
            && TextOf(a.value) == "HTTP/1.1 400 " + "\r\nContent-Type: text/plain\r\n\r\n" + "400 BAD REQUEST\r\n"
  {
    hide TextOf, Configuration, ConfigQueries.FindKey, HttpRequests.Parse;
    ConfigurationReads(root, specs);
    ErrorReplies("");
  }

  /** A valid request is answered by the handler it is routed to. */
  lemma AnsweredByRoute(root: string, specs: seq<Spec>, counts: Counts, e: Event, i: nat)
    requires HttpRequests.Parse(e.message).Some? && IsRoute(specs, HttpRequests.Parse(e.message).value.uri, i)
    ensures var c := Configuration(root, specs);
            Serve(c, counts, e) == AnswerOf(c, counts, specs[i].name, e.outside)
  {
    hide Configuration, RouteOf, AnswerOf, IsRoute, ConfigQueries.FindKey, HttpRequests.Parse;
    ConfigurationReads(root, specs);
    RoutedByLocation(root, specs, HttpRequests.Parse(e.message).value.uri, i);
  }

  /** A statement `root` without a second word leaves every request without a defined answer. */
  lemma RootNeedsValue(specs: seq<Spec>, counts: Counts, e: Event)
    ensures Serve([Line(["root"])] + Blocks(specs), counts, e) == None
  {
    var c := [Line(["root"])] + Blocks(specs);
    ConfigQueries.PlainKey(c, "root");
    assert ConfigQueries.FindInStatement(c[0], ["root"], "") == None;
    hide ConfigQueries.FindKey, ConfigQueries.FindInStatement, ConfigQueries.FindBlocksKey, HttpRequests.Parse, Blocks;
  }

  /** A request is counted under the second word of its first line. */
  lemma CountedUnderUri(m: string, u: string, lines: string, body: string)
    requires FreeOf(m, {' ', '\r'}) && FreeOf(u, {' ', '\r'}) && u != "" && (HttpRequests.SpellsGet(m) || HttpRequests.SpellsPost(m))
    requires !Contains(m + " " + u + " " + "HTTP/1.1" + "\r\n" + lines + "\r\n\r", "\r\n\r\n")
    ensures UriOf(m + " " + u + " " + "HTTP/1.1" + "\r\n" + (lines + "\r\n\r\n" + body)) == u
  {
    hide HttpRequests.Parse, Contains, FreeOf, HttpRequests.SpellsGet, HttpRequests.SpellsPost;
    HttpRequests.ParsesAsWritten(m, u, lines, body);
  }

  /** Nine names create a handler; one that does not answer is answered for by the page for what is not found. */
  lemma HandlerNames(c: Config, counts: Counts, name: string, outside: Option<Answer>)
    requires name != "status"
    ensures AnswerOf(c, counts, name, outside) ==
            if name == "not_found" then Some(NOT_FOUND)
            else if name == "bad_request" then Some(BAD_REQUEST)
            else if name == "echo" || name == "static" || name == "reverse_proxy" || name == "sleep" || name == "meme"
                    || name == "health_check"
                 then (if outside.Some? then outside else Some(NOT_FOUND))
            else None
  {}

  // ---------- the status page ----------

  /** Cut at its line feeds, the list of statuses has a line for each, with its count. */
  lemma {:induction false} StatusesLineByLine(m: Pairs<int, int>, rest: string)
    ensures var lines := Split(StatusLines(m) + rest, {'\n'});
            && |lines| == |m| + |Split(rest, {'\n'})|
            && lines[|m|..] == Split(rest, {'\n'})
            && forall i :: 0 <= i < |m| ==>
                 lines[i] == Decimal.ToString(m[i].0) + ": " + Decimal.ToString(m[i].1) + " requests"
    decreases |m|
  {
    hide Split, Decimal.ToString;
    if m == [] {
      assert StatusLines(m) + rest == rest;
    } else {
      var line := Decimal.ToString(m[0].0) + ": " + Decimal.ToString(m[0].1) + " requests";
      var more := StatusLines(m[1..]) + rest;
      StatusLineHasNoFeed(m[0].0, m[0].1);
      NextLine(Decimal.ToString(m[0].0), Decimal.ToString(m[0].1), StatusLines(m[1..]), rest);
      hide StatusLines;
      StatusesLineByLine(m[1..], rest);
      SplitFree(line, {'\n'});
      SplitAt(line, '\n', more, {'\n'});
      HttpReplies.OneMoreLine(line, Split(more, {'\n'}), |m| - 1);
      assert forall i :: 1 <= i < |m| ==> m[i] == m[1..][i - 1];
    }
  }

  lemma StatusLineHasNoFeed(status: int, count: int)
    ensures FreeOf(Decimal.ToString(status) + ": " + Decimal.ToString(count) + " requests", {'\n'})
  {
    HttpReplies.NumberIsPlain(status, {'\n'});
    HttpReplies.NumberIsPlain(count, {'\n'});
    hide Decimal.ToString;
  }

  lemma NextLine(s: string, n: string, lines: string, rest: string)
    ensures s + ": " + n + " requests\n" + lines + rest == (s + ": " + n + " requests") + ['\n'] + (lines + rest)
  {
    assert " requests\n" == " requests" + ['\n'];
  }

  /** The status and the count are read back from the line: the number in front is the status. */
  lemma StatusIsReadBack(status: int, count: int)
    requires -0x8000_0000 <= status <= 0x7fff_ffff
    ensures Decimal.Stoi(Decimal.ToString(status) + ": " + Decimal.ToString(count) + " requests") == Ok(status)
  {
    hide Decimal.ToString, Decimal.Stoi;
    var rest := ": " + Decimal.ToString(count) + " requests";
    Decimal.StoiToString(status, rest);
    assert Decimal.ToString(status) + rest == Decimal.ToString(status) + ": " + Decimal.ToString(count) + " requests";
  }

  /** The uri stands in front of its first status, in the order of the uris. */
  lemma UrisInOrder(uri: string, m: Pairs<int, int>, c: Counts)
    ensures UriLines([(uri, m)] + c) == uri + " - " + StatusLines(m) + UriLines(c) && UriLines([]) == ""
  {
    assert ([(uri, m)] + c)[1..] == c;
    hide StatusLines;
  }

  /** A line for each handler: its name, and then its location. */
  lemma {:induction false} HandlersLineByLine(specs: seq<Spec>, h: Spec)
    ensures HandlerLines(Bodies(specs)).Some?
    ensures HandlerLines(Bodies(specs + [h]))
         == Some(HandlerLines(Bodies(specs)).value + h.name + " - " + h.location + "\n")
    decreases |specs|
  {
    hide Body, Location, Name;
    BodiesAt(specs);
    BodiesAt(specs + [h]);
    BodyReads(h);
    assert Bodies(specs + [h])[..|specs|] == Bodies(specs);
    if specs != [] {
      var n := |specs| - 1;
      HandlersLineByLine(specs[..n], specs[n]);
      assert specs[..n] + [specs[n]] == specs;
    }
  }

  /** The whole page for one handler, one uri and one status. */
  lemma StatusPageText(root: string, h: Spec, uri: string, status: int, count: int)
    ensures var page := StatusPage(Configuration(root, [h]), [(uri, [(status, count)])]);
            && page.Some?
            && page.value.status == 200
            && page.value.body
               == ("Status of web server:\n(URL - RESPONS_CODE: NUMBER_OF_REQUESTS)\n"
                   + (uri + " - " + (Decimal.ToString(status) + ": " + Decimal.ToString(count) + " requests\n"))
                   + "total number of requests: " + Decimal.ToString(count) + "\n\n")
                  + ("Existing Handlers:\n(HANDLER - URL_PREFIX)\n" + (h.name + " - " + h.location + "\n"))
  {
    hide Decimal.ToString, Configuration, Bodies, ConfigQueries.FindBlocksKey, HandlerLines;
    ConfigurationReads(root, [h]);
    OneHandler(h);
    OneCount(uri, status, count);
  }

  lemma OneHandler(h: Spec)
    ensures HandlerLines(Bodies([h])) == Some(h.name + " - " + h.location + "\n")
  {
    HandlersLineByLine([], h);
    assert [] + [h] == [h] && HandlerLines(Bodies([])) == Some("");
    hide HandlerLines;
    assert "" + h.name == h.name;
  }

  lemma OneCount(uri: string, status: int, count: int)
    ensures var c: Counts := [(uri, [(status, count)])];
            && UriLines(c) == uri + " - " + (Decimal.ToString(status) + ": " + Decimal.ToString(count) + " requests\n")
            && Total(c) == count
  {
    hide Decimal.ToString;
    var m: Pairs<int, int> := [(status, count)];
    var c: Counts := [(uri, m)];
    assert m[1..] == [] && c[1..] == [];
    var line := Decimal.ToString(status) + ": " + Decimal.ToString(count) + " requests\n";
    assert StatusLines(m) == line + "" == line;
    assert UriLines(c) == uri + " - " + line + "" == uri + " - " + line;
    OneWeight(status, count, Same);
    OneWeight(uri, m, RequestCounts.Requests);
  }

  lemma OneWeight<K, V>(k: K, v: V, w: V -> int)
    ensures Weight([(k, v)], w) == w(v)
  {
    assert [(k, v)][1..] == [];
  }
}
