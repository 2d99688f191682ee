/**
The text the reverse proxy sends and the rewriting of what it gets back: the request it prints is read back
by the server's own parser, and the rewriting respects the border between head and body.
 */
module ReverseProxy {
  import opened Wrappers
  import opened Text
  import opened HttpReplies
  import HttpRequests
  import Decimal
  import opened OrderedMaps

  // ---------- rewriting links ----------

  /** The four searches of `RedirectHTMLMaps`, in order, each with its replacement. */
  function Rewrites(prefix: string): seq<(string, string)> {
    [("href=\"/", "href=\"" + prefix + "/"),
     ("src=\"/", "src=\"" + prefix + "/"),
     ("url(/", "url(" + prefix + "/"),
     ("src='", "src='" + prefix + "/")]
  }

  /** One replacement after the other. */
  function RewriteAll(text: string, rewrites: seq<(string, string)>): string
    requires forall i :: 0 <= i < |rewrites| ==> rewrites[i].0 != ""
    decreases |rewrites|
  {
    if rewrites == [] then text
    else RewriteAll(ReplaceAll(Literal(rewrites[0].0), text, rewrites[0].1), rewrites[1..])
  }

  function RedirectHTMLMaps(resp: string, prefix: string): string {
    RewriteAll(resp, Rewrites(prefix))
  }

  /** A replacement within a line: both texts are there, and neither breaks the line. */
  ghost predicate InLine(rewrite: (string, string)) {
    rewrite.0 != "" && rewrite.1 != "" && FreeOf(rewrite.0, BREAKS) && FreeOf(rewrite.1, BREAKS)
  }

  ghost predicate AllInLine(rewrites: seq<(string, string)>) {
    forall i :: 0 <= i < |rewrites| ==> InLine(rewrites[i])
  }

  lemma RewritesInLine(prefix: string)
    requires FreeOf(prefix, BREAKS)
    ensures AllInLine(Rewrites(prefix))
  {
    Surround("href=\"", prefix);
    Surround("src=\"", prefix);
    Surround("url(", prefix);
    Surround("src='", prefix);
  }

  lemma Surround(front: string, prefix: string)
    requires FreeOf(front, BREAKS) && FreeOf(prefix, BREAKS)
    ensures FreeOf(front + prefix + "/", BREAKS)
  {}

  lemma AtCharacters(s: string, j: nat, m: string)
    requires At(s, j, m)
    ensures forall k :: j <= k < j + |m| ==> s[k] == m[k - j]
  {
    assert forall k :: j <= k < j + |m| ==> s[k] == s[j..j + |m|][k - j];
  }

  /** No search within a line finds a place that reaches into the end of a head. */
  lemma NotAcrossEnd(m: string, x: string, t: string)
    requires m != "" && FreeOf(m, BREAKS)
    ensures NoStraddle(Literal(m), x, HEAD_END + t)
  {
    var s := x + (HEAD_END + t);
    forall j | 0 <= j < |x| && MatchEnd(Literal(m), s, j).Some? ensures j + |m| <= |x| {
      AtCharacters(s, j, m);
      assert forall k :: j <= k < j + |m| ==> s[k] !in BREAKS;
      assert s[|x|] == '\r';
    }
  }

  lemma NotInEnd(m: string, t: string)
    requires m != "" && FreeOf(m, BREAKS)
    ensures forall j :: 0 <= j < |HEAD_END| ==> MatchEnd(Literal(m), HEAD_END + t, j).None?
  {
    forall j | 0 <= j < |HEAD_END| ensures MatchEnd(Literal(m), HEAD_END + t, j).None? {
      assert (HEAD_END + t)[j] == HEAD_END[j] && HEAD_END[j] in BREAKS;
      if At(HEAD_END + t, j, m) { AtCharacters(HEAD_END + t, j, m); }
    }
  }

  /** One replacement treats the head and the body apart. */
  lemma ReplaceParts(m: string, r: string, head: string, body: string)
    requires m != "" && FreeOf(m, BREAKS)
    ensures ReplaceAll(Literal(m), head + HEAD_END + body, r)
         == ReplaceAll(Literal(m), head, r) + HEAD_END + ReplaceAll(Literal(m), body, r)
  {
    hide MatchEnd, FreeOf;
    NotAcrossEnd(m, head, body);
    NotInEnd(m, body);
    assert head + HEAD_END + body == head + (HEAD_END + body);
    ReplaceSplit(Literal(m), head, HEAD_END + body, r);
    ReplaceAfter(Literal(m), HEAD_END, body, r);
  }

  /** Nor does a replacement within lines bring an end of a head into being. */
  lemma {:induction false} ReplaceKeepsEnd(m: string, r: string, x: string, t: string, u: string)
    requires InLine((m, r)) && NoEndIn(x, HEAD_END + t)
    ensures NoEndIn(ReplaceAll(Literal(m), x, r), HEAD_END + u)
    decreases |x|
  {
    hide ReplaceAll, Find, At, NoEndIn, FreeOf;
    ReplaceRound(x, m, r);
    GapHasNone(x, m);
    if Find(x, m, 0).None? {
      OtherBody(x, t, u);
    } else {
      var k := Find(x, m, 0).value;
      var gap, rest := x[..k], x[k + |m|..];
      EndsApart(gap + m, rest, t);
      ReplaceKeepsEnd(m, r, rest, t, u);
      assert gap + m + rest == gap + (m + rest);
      EndsApart(gap, m + rest, t);
      GapRound(gap, m + rest + (HEAD_END + t), r, ReplaceAll(Literal(m), rest, r), u);
    }
  }

  /** One round of the replacement: a gap, the replacement, and what the rest becomes. */
  lemma GapRound(gap: string, t: string, r: string, tail: string, u: string)
    requires r != "" && FreeOf(r, BREAKS) && NoEndIn(gap, t) && NoEndIn(tail, HEAD_END + u)
    ensures NoEndIn(gap + r + tail, HEAD_END + u)
  {
    hide At, NoEndIn, FreeOf;
    var after := tail + (HEAD_END + u);
    NoEndWithoutBreaks(r, after);
    NoEndAppend(r, tail, HEAD_END + u);
    GapKeepsEnd(gap, t, r, after);
    assert r + tail + (HEAD_END + u) == r + after;
    NoEndAppend(gap, r + tail, HEAD_END + u);
    assert gap + (r + tail) == gap + r + tail;
  }

  lemma NoEndWithoutBreaks(x: string, t: string)
    requires FreeOf(x, BREAKS)
    ensures NoEndIn(x, t)
  {
    NoEndWithoutReturn(x, t);
  }

  /** Whether an end begins in `x` does not depend on what follows the end behind it. */
  lemma OtherBody(x: string, t: string, u: string)
    requires NoEndIn(x, HEAD_END + t)
    ensures NoEndIn(x, HEAD_END + u)
  {
    forall j | 0 <= j < |x| ensures !At(x + (HEAD_END + u), j, HEAD_END) {
      assert x + (HEAD_END + u) == (x + HEAD_END) + u && x + (HEAD_END + t) == (x + HEAD_END) + t;
      AtInFront(x + HEAD_END, u, j, HEAD_END);
      AtInFront(x + HEAD_END, t, j, HEAD_END);
    }
  }

  lemma EndsApart(x: string, y: string, t: string)
    requires NoEndIn(x + y, HEAD_END + t)
    ensures NoEndIn(x, y + (HEAD_END + t)) && NoEndIn(y, HEAD_END + t)
  {
    var s := y + (HEAD_END + t);
    assert x + y + (HEAD_END + t) == x + s;
    forall j | 0 <= j < |y| ensures !At(s, j, HEAD_END) {
      AtBehind(x, s, j, HEAD_END);
      assert !At(x + s, |x| + j, HEAD_END);
    }
  }

  lemma EndBreaks(s: string, j: nat, k: nat)
    requires At(s, j, HEAD_END) && j <= k < j + 4
    ensures s[k] in BREAKS
  {
    AtCharacters(s, j, HEAD_END);
  }

  /** An end that begins in `gap` would reach into the text `r` behind it, which has no line break. */
  lemma GapKeepsEnd(gap: string, t: string, r: string, u: string)
    requires NoEndIn(gap, t) && r != "" && FreeOf(r, BREAKS)
    ensures NoEndIn(gap, r + u)
  {
    forall j | 0 <= j < |gap| ensures !At(gap + (r + u), j, HEAD_END) {
      var s := gap + (r + u);
      if j + 4 <= |gap| {
        AtInFront(gap, r + u, j, HEAD_END);
        AtInFront(gap, t, j, HEAD_END);
      } else {
        assert s[|gap|] == r[0] && r[0] !in BREAKS;
        if At(s, j, HEAD_END) { EndBreaks(s, j, |gap|); }
      }
    }
  }

  /** Rewriting commutes with splitting a response at the end of its head. */
  lemma {:induction false} RewriteParts(rewrites: seq<(string, string)>, head: string, body: string)
    requires AllInLine(rewrites) && NoEndIn(head, HEAD_END + body)
    ensures RewriteAll(head + HEAD_END + body, rewrites)
         == RewriteAll(head, rewrites) + HEAD_END + RewriteAll(body, rewrites)
    ensures NoEndIn(RewriteAll(head, rewrites), HEAD_END + RewriteAll(body, rewrites))
    decreases |rewrites|
  {
    if rewrites != [] {
      var (m, r) := rewrites[0];
      assert InLine(rewrites[0]);
      ReplaceParts(m, r, head, body);
      var body' := ReplaceAll(Literal(m), body, r);
      ReplaceKeepsEnd(m, r, head, body, body');
      assert AllInLine(rewrites[1..]) by {
        assert forall i :: 0 <= i < |rewrites[1..]| ==> rewrites[1..][i] == rewrites[i + 1];
      }
      hide InLine, NoEndIn, ReplaceAll;
      RewriteParts(rewrites[1..], ReplaceAll(Literal(m), head, r), body');
    }
  }

  /** A text without any of the four patterns is left as it is. */
  lemma {:induction false} RewriteNothing(text: string, rewrites: seq<(string, string)>)
    requires forall i :: 0 <= i < |rewrites| ==> rewrites[i].0 != "" && !Contains(text, rewrites[i].0)
    ensures RewriteAll(text, rewrites) == text
    decreases |rewrites|
  {
    if rewrites != [] {
      var (m, r) := rewrites[0];
      assert !Contains(text, rewrites[0].0);
      ReplaceRound(text, m, r);
      assert Find(text, m, 0).None?;
      assert forall i :: 0 <= i < |rewrites[1..]| ==> rewrites[1..][i] == rewrites[i + 1];
      RewriteNothing(text, rewrites[1..]);
    }
  }

  /** The body of a rewritten response is the rewritten body, and its head the rewritten head. */
  lemma RedirectSplits(prefix: string, head: string, body: string)
    requires FreeOf(prefix, {'\r', '\n'}) && NoEndIn(head, HEAD_END + body)
    ensures var resp := RedirectHTMLMaps(head + HEAD_END + body, prefix);
            var start := Find(resp, HEAD_END, 0);
            && start == Some(|RedirectHTMLMaps(head, prefix)|)
            && start.value + 4 <= |resp|
            && Head(resp, start) == RedirectHTMLMaps(head, prefix)
            && GetBody(resp, start) == RedirectHTMLMaps(body, prefix)
  {
    RewritesInLine(prefix);
    hide RewriteAll, Rewrites, Find, At, NoEndIn, AllInLine;
    RewriteParts(Rewrites(prefix), head, body);
    FirstEnd(RedirectHTMLMaps(head, prefix), RedirectHTMLMaps(body, prefix));
    Cut(RedirectHTMLMaps(head, prefix), RedirectHTMLMaps(body, prefix));
  }

  lemma Cut(head: string, body: string)
    ensures var s := head + HEAD_END + body;
            |head| + 4 <= |s| && s[..|head|] == head && s[|head| + 4..] == body
  {}

  /** Rewriting leaves the head of a reply as it is if it holds none of the four patterns. */
  lemma RewriteReply(status: int, headers: Headers, body: string, prefix: string)
    requires PlainHeaders(headers) && FreeOf(prefix, {'\r', '\n'})
    requires forall i :: 0 <= i < 4 ==> !Contains(ReplyHead(status, headers), Rewrites(prefix)[i].0)
    ensures RedirectHTMLMaps(ReplyText(status, headers, body), prefix)
         == ReplyText(status, headers, RedirectHTMLMaps(body, prefix))
  {
    var head := ReplyHead(status, headers);
    RewriteNothing(head, Rewrites(prefix));
    RewritesInLine(prefix);
    hide RewriteAll, Rewrites, ReplyText, ReplyHead, Find, At, NoEndIn, AllInLine, PlainHeaders;
    ReplyTextSplits(status, headers, body);
    ReplyEnd(status, headers, body);
    RewriteParts(Rewrites(prefix), head, body);
    ReplyTextSplits(status, headers, RedirectHTMLMaps(body, prefix));
  }

  /**
  From one server through the proxy to the next: of a printed reply the proxy reads back the status, the
  headers, and the body with its links rewritten, if the head holds none of the four patterns.
  */
  lemma ReplyThroughProxy(status: int, headers: Headers, body: string, prefix: string)
    requires -0x8000_0000 <= status <= 0x7fff_ffff && PlainHeaders(headers) && FreeOf(prefix, {'\r', '\n'})
    requires forall i :: 0 <= i < 4 ==> !Contains(ReplyHead(status, headers), Rewrites(prefix)[i].0)
    ensures var resp := RedirectHTMLMaps(ReplyText(status, headers, body), prefix);
            var start := Find(resp, HEAD_END, 0);
            && start.Some? && start.value + 4 <= |resp|
            && GetStatus(resp) == Ok(status)
            && HeadersOf(resp, start) == Some(headers)
            && GetBody(resp, start) == RedirectHTMLMaps(body, prefix)
  {
    hide RedirectHTMLMaps, Rewrites, ReplyText, ReplyHead, Find, At, PlainHeaders, GetStatus, HeadersOf;
    RewriteReply(status, headers, body, prefix);
    ReplyRoundTrip(status, headers, RedirectHTMLMaps(body, prefix));
  }

  /** A line in which no search can begin stays in front of what is rewritten. */
  lemma {:induction false} RewriteBehind(line: string, rest: string, rewrites: seq<(string, string)>)
    requires forall i :: 0 <= i < |rewrites| ==> rewrites[i].0 != "" && FreeOf(line, {rewrites[i].0[0]})
    ensures RewriteAll(line + rest, rewrites) == line + RewriteAll(rest, rewrites)
    decreases |rewrites|
  {
    if rewrites != [] {
      var (m, r) := rewrites[0];
      assert rewrites[0].0 == m;
      forall j | 0 <= j < |line| ensures MatchEnd(Literal(m), line + rest, j).None? {
        assert (line + rest)[j] == line[j] != m[0];
        if At(line + rest, j, m) { AtCharacters(line + rest, j, m); }
      }
      ReplaceAfter(Literal(m), line, rest, r);
      assert forall i :: 0 <= i < |rewrites[1..]| ==> rewrites[1..][i] == rewrites[i + 1];
      RewriteBehind(line, ReplaceAll(Literal(m), rest, r), rewrites[1..]);
    }
  }

  lemma StatusLineHasNoLink(status: int)
    ensures FreeOf(StatusLine(status), {'h'}) && FreeOf(StatusLine(status), {'s'}) && FreeOf(StatusLine(status), {'u'})
  {
    hide Decimal.ToString, Reason, FreeOf;
    var chars := {'h', 's', 'u'};
    var front, n := "HTTP/1.1" + " ", Decimal.ToString(status);
    NumberIsPlain(status, chars);
    WordsHaveNoLink(status);
    FreeOfAppend(front, n, chars);
    FreeOfAppend(front + n, " ", chars);
    FreeOfAppend(front + n + " ", Reason(status), chars);
    OneByOne(StatusLine(status));
  }

  lemma WordsHaveNoLink(status: int)
    ensures var chars := {'h', 's', 'u'};
            FreeOf("HTTP/1.1" + " ", chars) && FreeOf(" ", chars) && FreeOf(Reason(status), chars)
  {}

  lemma OneByOne(s: string)
    requires FreeOf(s, {'h', 's', 'u'})
    ensures FreeOf(s, {'h'}) && FreeOf(s, {'s'}) && FreeOf(s, {'u'})
  {}

  /** The status survives the rewriting of the response, whatever the headers and the body hold. */
  lemma StatusSurvives(status: int, rest: string, prefix: string)
    requires -0x8000_0000 <= status <= 0x7fff_ffff
    ensures GetStatus(RedirectHTMLMaps(StatusLine(status) + rest, prefix)) == Ok(status)
  {
    StatusLineHasNoLink(status);
    RewriteBehind(StatusLine(status), rest, Rewrites(prefix));
    hide StatusLine, GetStatus, RewriteAll, Rewrites;
    StatusRead(status, RewriteAll(rest, Rewrites(prefix)));
  }

  // ---------- the request that goes out ----------

  /** The text that `HandleRequest` sends to the other server. */
  function OutgoingText(method_: string, path: string, host: string): string {
    method_ + " " + path + " " + "HTTP/1.1" + CRLF + "Host: " + host
    + CRLF + "Accept-Encoding: utf-8" + CRLF + "Connection: close" + HEAD_END
  }

  /** `GetPath`; `None` where the uri is shorter than the prefix and the program throws. */
  function GetPath(uri: string, prefix: string): Option<string> {
    if |uri| < |prefix| then None
    else if uri[|prefix|..] == "" then Some("/")
    else Some(uri[|prefix|..])
  }

  /** The head of the outgoing text behind its first line, up to the end. */
  function OutgoingLines(host: string): string {
    CRLF + "Host: " + host + CRLF + "Accept-Encoding: utf-8" + CRLF + "Connection: close"
  }

  lemma OutgoingParts(method_: string, path: string, host: string)
    ensures OutgoingText(method_, path, host)
         == (method_ + " " + path + " " + "HTTP/1.1") + (OutgoingLines(host) + HEAD_END)
  {
    var x := method_ + " " + path + " " + "HTTP/1.1";
    Assemble(x, "Host: ", host, "Accept-Encoding: utf-8", "Connection: close");
  }

  lemma Assemble(x: string, a: string, b: string, c: string, d: string)
    ensures x + CRLF + a + b + CRLF + c + CRLF + d + HEAD_END == x + (CRLF + a + b + CRLF + c + CRLF + d + HEAD_END)
  {}

  /** The end of the outgoing head is its first end unless the host, with the line break behind it, holds one. */
  lemma OutgoingEnd(host: string)
    requires !Contains(host + CRLF, HEAD_END)
    ensures NoEndIn(OutgoingLines(host), HEAD_END)
  {
    hide At, NoEndIn, Contains;
    var accept, close := "Accept-Encoding: utf-8", "Connection: close";
    NoEndInLine(close, HEAD_END);
    NoEndInLine(accept, CRLF + close + HEAD_END);
    NoEndAppend(CRLF + accept, CRLF + close, HEAD_END);
    var rest := CRLF + accept + (CRLF + close);
    HostHasNoEnd(host, accept + (CRLF + close) + HEAD_END);
    assert CRLF + (accept + (CRLF + close) + HEAD_END) == rest + HEAD_END;
    NoEndAppend(host, rest, HEAD_END);
    NoEndInLine("Host: ", host + rest + HEAD_END);
    NoEndAppend(CRLF + "Host: ", host + rest, HEAD_END);
    assert CRLF + "Host: " + (host + rest) == OutgoingLines(host);
  }

  lemma HostHasNoEnd(host: string, t: string)
    requires !Contains(host + CRLF, HEAD_END) && t != "" && t[0] != '\r'
    ensures NoEndIn(host, CRLF + t)
  {
    forall j | 0 <= j < |host| ensures !At(host + (CRLF + t), j, HEAD_END) {
      var s := host + (CRLF + t);
      assert s == (host + CRLF) + t;
      if At(s, j, HEAD_END) { HostEnd(host, t, j); }
    }
  }

  lemma HostEnd(host: string, t: string, j: nat)
    requires j < |host| && t != "" && t[0] != '\r' && At(host + CRLF + t, j, HEAD_END)
    ensures At(host + CRLF, j, HEAD_END)
  {
    var s := host + CRLF + t;
    EndCharacters(s, j);
    assert s[|host|] == '\r' && s[|host| + 1] == '\n' && s[|host| + 2] == t[0];
    assert j + 4 <= |host| + 2;
    AtInFront(host + CRLF, t, j, HEAD_END);
  }

  lemma OutgoingFields(method_: string, path: string, host: string)
    requires FreeOf(method_, {' ', '\r'}) && FreeOf(path, {' ', '\r'})
    ensures var text := OutgoingText(method_, path, host);
            HttpRequests.Fields(HttpRequests.RequestLine(text)) == [method_, path, "HTTP/1.1"]
  {
    var line := method_ + " " + path + " " + "HTTP/1.1";
    var rest := OutgoingLines(host) + HEAD_END;
    OutgoingParts(method_, path, host);
    assert FreeOf(line, {'\r'});
    assert rest[0] == '\r';
    SpanOutIs(line + rest, {'\r'}, |line|);
    assert (line + rest)[..|line|] == line;
    hide OutgoingText, OutgoingLines;
    HttpRequests.ThreeFields(method_, path, "HTTP/1.1");
  }

  /** Where the body of the outgoing text begins. */
  lemma OutgoingBody(method_: string, path: string, host: string)
    requires FreeOf(method_, {'\r'}) && FreeOf(path, {'\r'})
    ensures var text := OutgoingText(method_, path, host);
            var end := Find(text, HEAD_END, 0);
            && |text| >= 4
            && end.Some? && end.value + 4 <= |text|
            && (end.value + 4 == |text| <==> !Contains(host + CRLF, HEAD_END))
  {
    hide Find, At, OutgoingText, OutgoingLines, Contains;
    var line := method_ + " " + path + " " + "HTTP/1.1";
    OutgoingParts(method_, path, host);
    assert FreeOf(line, {'\r'});
    hide FreeOf;
    if Contains(host + CRLF, HEAD_END) {
      HostEndsHead(line, host);
    } else {
      OwnEndsHead(line, host);
    }
  }

  /** An end of a head that the host brings comes before the end of the text. */
  lemma HostEndsHead(line: string, host: string)
    requires Contains(host + CRLF, HEAD_END)
    ensures var text := line + (OutgoingLines(host) + HEAD_END);
            var end := Find(text, HEAD_END, 0);
            |text| >= 4 && end.Some? && end.value + 4 < |text|
  {
    var j: nat :| At(host + CRLF, j, HEAD_END);
    var text := line + (OutgoingLines(host) + HEAD_END);
    var k := |line| + |CRLF + "Host: "| + j;
    EarlierEnd(line, host, j);
    NothingEarlier(text, HEAD_END, 0);
    AtFits(host + CRLF, j, HEAD_END);
    hide At, Find;
    assert k + 4 < |text|;
  }

  /** Without one, the head ends where the text does. */
  lemma OwnEndsHead(line: string, host: string)
    requires !Contains(host + CRLF, HEAD_END) && FreeOf(line, {'\r'})
    ensures var text := line + (OutgoingLines(host) + HEAD_END);
            |text| >= 4 && Find(text, HEAD_END, 0) == Some(|text| - 4)
  {
    hide Find, At, NoEndIn, OutgoingLines, Contains, FreeOf;
    var head := line + OutgoingLines(host);
    OutgoingEnd(host);
    NoEndWithoutReturn(line, OutgoingLines(host) + HEAD_END);
    NoEndAppend(line, OutgoingLines(host), HEAD_END);
    assert HEAD_END + "" == HEAD_END;
    FirstEnd(head, "");
    assert head + HEAD_END + "" == line + (OutgoingLines(host) + HEAD_END);
  }

  lemma EarlierEnd(line: string, host: string, j: nat)
    requires At(host + CRLF, j, HEAD_END)
    ensures At(line + (OutgoingLines(host) + HEAD_END), |line| + |CRLF + "Host: "| + j, HEAD_END)
  {
    var front := CRLF + "Host: ";
    var rest := "Accept-Encoding: utf-8" + CRLF + "Connection: close" + HEAD_END;
    assert OutgoingLines(host) + HEAD_END == front + ((host + CRLF) + rest);
    AtFits(host + CRLF, j, HEAD_END);
    AtInFront(host + CRLF, rest, j, HEAD_END);
    AtBehind(front, (host + CRLF) + rest, j, HEAD_END);
    AtBehind(line, front + ((host + CRLF) + rest), |front| + j, HEAD_END);
  }

  lemma OutgoingParse(method_: string, path: string, host: string)
    requires HttpRequests.IsMethod(method_)
    requires FreeOf(method_, {' ', '\r'}) && FreeOf(path, {' ', '\r'}) && path != ""
    ensures var r := HttpRequests.Parse(OutgoingText(method_, path, host));
            && r.Some? && r.value.method_ == method_ && r.value.uri == path
            && (r.value.body == "" <==> !Contains(host + CRLF, HEAD_END))
  {
    OutgoingFields(method_, path, host);
    OutgoingBody(method_, path, host);
    hide OutgoingText, HttpRequests.Fields, HttpRequests.IsMethod, HttpRequests.Params, Contains, At;
    assert HttpRequests.CleanlySpaced([method_, path, "HTTP/1.1"]);
  }

  /**
  The text the proxy sends for a valid request is again a valid request: the same method, the rest of the
  uri behind the prefix or a slash, and no body exactly when the host brings no end of a head with it.
  */
  lemma OutgoingReparses(s: string, prefix: string, host: string)
    requires HttpRequests.Parse(s).Some? && prefix <= HttpRequests.Parse(s).value.uri
    ensures var p := HttpRequests.Parse(s).value;
            var path := GetPath(p.uri, prefix);
            && path.Some?
            && var r := HttpRequests.Parse(OutgoingText(p.method_, path.value, host));
            && r.Some?
            && r.value.method_ == p.method_
            && r.value.uri == path.value
            && (p.uri == prefix + path.value || (p.uri == prefix && path.value == "/"))
            && (r.value.body == "" <==> !Contains(host + CRLF, HEAD_END))
  {
    HttpRequests.ValidHasUri(s);
    var p := HttpRequests.Parse(s).value;
    PathBehind(p.uri, prefix);
    hide HttpRequests.Parse, GetPath;
    var path := GetPath(p.uri, prefix).value;
    OutgoingParse(p.method_, path, host);
  }

  lemma PathBehind(uri: string, prefix: string)
    requires prefix <= uri && FreeOf(uri, {' ', '\r'})
    ensures var path := GetPath(uri, prefix);
            && path.Some? && path.value != "" && FreeOf(path.value, {' ', '\r'})
            && (uri == prefix + path.value || (uri == prefix && path.value == "/"))
  {
    assert forall i :: 0 <= i < |uri| - |prefix| ==> uri[|prefix|..][i] == uri[|prefix| + i];
    assert uri == prefix + uri[|prefix|..];
  }

  // ---------- hosts and ports ----------

  const HTTP := "http://"
  const HTTPS := "https://"

  /** The host name without its protocol, and the port. */
  function Strip(host: string, port: string): (string, string) {
    match Find(host, HTTP, 0)
    case Some(k) => (host[k + |HTTP|..], port)
    case None =>
      match Find(host, HTTPS, 0)
      case Some(k) => (host[k + |HTTPS|..], "443")
      case None => (host, port)
  }

  /** The host in front of the first slash and the path from it on. */
  function SplitHost(host: string): (string, string) {
    match Find(host, "/", 0)
    case None => (host, "")
    case Some(k) => (host[..k], host[k..])
  }

  class ReverseProxyHandler {
    var uriPrefix: string
    var hostName: string
    var portName: string

    constructor (uriPrefix: string, host: string, port: string)
      ensures this.uriPrefix == uriPrefix && (hostName, portName) == Strip(host, port)
    {
      this.uriPrefix, hostName, portName := uriPrefix, host, port;
      new;
      RemoveHTTPProtocol();
    }

    method RemoveHTTPProtocol()
      modifies this`hostName, this`portName
      ensures (hostName, portName) == Strip(old(hostName), old(portName))
    {
      var pos := Find(hostName, HTTP, 0);
      if pos.Some? {
        hostName := hostName[pos.value + |HTTP|..];
      } else {
        pos := Find(hostName, HTTPS, 0);
        if pos.Some? {
          hostName := hostName[pos.value + |HTTPS|..];
          portName := "443";
        }
      }
    }

    method GetNewHostAndPath(newLocation: string) returns (uri: string)
      modifies this`hostName, this`portName
      ensures var (host, port) := Strip(newLocation, old(portName));
              && hostName == SplitHost(host).0
              && portName == port
              && uri == uriPrefix + SplitHost(host).1
    {
      hostName := newLocation;
      RemoveHTTPProtocol();
      var pos := Find(hostName, "/", 0);
      var suffix := "";
      if pos.Some? {
        suffix := hostName[pos.value..];
        hostName := hostName[..pos.value];
      }
      uri := uriPrefix + suffix;
    }
  }

  /** A redirect to a host and a path by plain http is followed to both, and the port stays. */
  lemma RedirectFollowed(host: string, path: string, port: string, prefix: string)
    requires FreeOf(host, {'/'}) && (path != "" ==> path[0] == '/')
    ensures var (h, p) := Strip("http://" + (host + path), port);
            && p == port
            && SplitHost(h) == (host, path)
            && GetPath(prefix + SplitHost(h).1, prefix) == Some(if path == "" then "/" else path)
  {
    StripHttp(host + path, port);
    hide Strip, Find, At;
    SplitsHost(host, path);
    assert (prefix + path)[|prefix|..] == path;
  }

  lemma StripHttp(rest: string, port: string)
    ensures Strip(HTTP + rest, port) == (rest, port)
  {
    var s := HTTP + rest;
    assert s[0..|HTTP|] == HTTP && s[|HTTP|..] == rest;
    FindIs(s, HTTP, 0, 0);
  }

  lemma SplitsHost(host: string, path: string)
    requires FreeOf(host, {'/'}) && (path != "" ==> path[0] == '/')
    ensures SplitHost(host + path) == (host, path)
  {
    if path == "" {
      FindNowhere(host, '/');
      assert host + path == host;
    } else {
      assert host + path == host + ['/'] + path[1..];
      FindFirst(host, '/', path[1..]);
      assert (host + path)[..|host|] == host && (host + path)[|host|..] == path;
      hide Find, At;
    }
  }

  /**
  A redirect to https is taken as one, with port 443, exactly when no `http://` stands anywhere behind the
  protocol: such a text, in a query say, is searched for first and taken for the protocol.
  */
  lemma HttpsTakenIff(rest: string, port: string)
    ensures Strip("https://" + rest, port) == (rest, "443") <==> !Contains(rest, "http://")
  {
    var s := HTTPS + rest;
    assert s[0..|HTTPS|] == HTTPS && s[|HTTPS|..] == rest;
    forall j: nat ensures At(s, j, HTTP) <==> j >= |HTTPS| && At(rest, j - |HTTPS|, HTTP) {
      if j >= |HTTPS| { AtBehind(HTTPS, rest, j - |HTTPS|, HTTP); } else { NotInHttps(rest, j); }
    }
    NothingEarlier(s, HTTP, 0);
    if Contains(rest, HTTP) {
      var j: nat :| At(rest, j, HTTP);
      assert At(s, j + |HTTPS|, HTTP);
      assert Find(s, HTTP, 0).Some?;
    } else {
      assert Find(s, HTTP, 0).None?;
      FindIs(s, HTTPS, 0, 0);
    }
  }

  lemma HttpAt(s: string, j: nat)
    requires At(s, j, HTTP)
    ensures j + |HTTP| <= |s| && s[j] == 'h' && s[j + 4] == ':'
  {
    AtCharacters(s, j, HTTP);
  }

  lemma NotInHttps(rest: string, j: nat)
    requires j < |HTTPS|
    ensures !At(HTTPS + rest, j, HTTP)
  {
    var s := HTTPS + rest;
    assert s[4] == 's' && forall i :: 1 <= i < |HTTPS| ==> s[i] == HTTPS[i] != 'h';
    if At(s, j, HTTP) { HttpAt(s, j); }
  }

  // ---------- what the other branches do ----------

  /** Text in front that begins no match: the first match is behind it. */
  lemma FindBehindText(x: string, m: string, c: char, y: string)
    requires !Contains(x + m, m + [c])
    ensures Find(x + (m + [c]) + y, m + [c], 0) == Some(|x|)
  {
    var s, w := x + (m + [c]) + y, m + [c];
    assert s == (x + m) + ([c] + y);
    forall j | 0 <= j < |x| ensures !At(s, j, w) {
      assert !At(x + m, j, w);
      AtInFront(x + m, [c] + y, j, w);
    }
    assert s[|x|..|x| + |w|] == w;
    FindIs(s, w, 0, |x|);
  }

  lemma FindNone(s: string, m: string)
    ensures Find(s, m, 0) == None <==> !Contains(s, m)
  {
    NothingEarlier(s, m, 0);
    if Find(s, m, 0).Some? { assert At(s, Find(s, m, 0).value, m); }
    if Contains(s, m) {
      var j: nat :| At(s, j, m);
      AtFits(s, j, m);
    }
  }

  lemma BehindMatch(x: string, m: string, y: string)
    ensures |x| + |m| <= |x + m + y| && (x + m + y)[|x| + |m|..] == y
  {}

  /** The first `http://` is cut off with everything in front of it, and the port stays. */
  lemma StripsHttp(x: string, y: string, port: string)
    requires !Contains(x + "http:/", "http://")
    ensures Strip(x + "http://" + y, port) == (y, port)
  {
    assert "http:/" + ['/'] == "http://";
    FindBehindText(x, "http:/", '/', y);
    hide Find, At, Contains;
    BehindMatch(x, "http://", y);
  }

  /** Without one, the first `https://` is, and the port becomes 443. */
  lemma StripsHttps(x: string, y: string, port: string)
    requires !Contains(x + "https://" + y, "http://") && !Contains(x + "https:/", "https://")
    ensures Strip(x + "https://" + y, port) == (y, "443")
  {
    assert "https:/" + ['/'] == "https://";
    FindNone(x + "https://" + y, "http://");
    FindBehindText(x, "https:/", '/', y);
    hide Find, At, Contains;
    BehindMatch(x, "https://", y);
  }

  /** A host stays as it is exactly when it holds neither. */
  lemma StripKeepsIff(host: string, port: string)
    ensures Strip(host, port) == (host, port) <==> !Contains(host, "http://") && !Contains(host, "https://")
  {
    FindNone(host, "http://");
    FindNone(host, "https://");
    hide At, Contains;
    CutsShorter(host, "http://");
    CutsShorter(host, "https://");
  }

  lemma CutsShorter(s: string, m: string)
    requires m != ""
    ensures Find(s, m, 0).Some? ==>
              Find(s, m, 0).value + |m| <= |s| && |s[Find(s, m, 0).value + |m|..]| < |s|
  {
    if Find(s, m, 0).Some? { AtFits(s, Find(s, m, 0).value, m); }
  }

  // ---------- the headers that go out ----------

  function OutgoingHeaders(host: string): Headers {
    [("Host", host), ("Accept-Encoding", "utf-8"), ("Connection", "close")]
  }

  lemma LinesOfThree(a: (string, string), b: (string, string), c: (string, string))
    ensures HeadLines([a, b, c]) == CRLF + HeaderLine(a) + CRLF + HeaderLine(b) + CRLF + HeaderLine(c)
  {
    hide HeaderLine;
    var h := [a, b, c];
    assert h[1..] == [b, c] && h[1..][1..] == [c] && h[1..][1..][1..] == [];
    assert HeadLines([c]) == CRLF + HeaderLine(c) + "" == CRLF + HeaderLine(c);
    assert HeadLines([b, c]) == CRLF + HeaderLine(b) + (CRLF + HeaderLine(c));
    Reassociate(CRLF + HeaderLine(a), CRLF + HeaderLine(b), CRLF + HeaderLine(c));
    assert CRLF + HeaderLine(a) + (CRLF + HeaderLine(b)) == CRLF + HeaderLine(a) + CRLF + HeaderLine(b);
    assert CRLF + HeaderLine(a) + CRLF + HeaderLine(b) + (CRLF + HeaderLine(c))
        == CRLF + HeaderLine(a) + CRLF + HeaderLine(b) + CRLF + HeaderLine(c);
  }

  lemma Reassociate(x: string, y: string, z: string)
    ensures x + (y + z) == x + y + z
  {}

  lemma OutgoingLinesAreHeaders(host: string)
    ensures OutgoingLines(host) == HeadLines(OutgoingHeaders(host))
  {
    var h := OutgoingHeaders(host);
    LinesOfThree(h[0], h[1], h[2]);
    hide HeadLines;
    assert "Accept-Encoding" + ": " + "utf-8" == "Accept-Encoding: utf-8";
    assert "Connection" + ": " + "close" == "Connection: close";
    HostLine(host, "Accept-Encoding: utf-8", "Connection: close");
  }

  lemma HostLine(host: string, a: string, b: string)
    ensures CRLF + "Host: " + host + CRLF + a + CRLF + b == CRLF + ("Host" + ": " + host) + CRLF + a + CRLF + b
  {
    assert "Host" + ": " == "Host: ";
    assert CRLF + "Host: " + host == CRLF + ("Host: " + host);
  }

  /** The next header is stored, whatever headers there are already. */
  lemma StoreOne(done: Headers, headers: Headers)
    requires headers != [] && PlainHeader(headers[0])
    ensures StoreLines(done, SplitLines(headers))
         == StoreLines(Put(StringLess, done, headers[0].0, headers[0].1), SplitLines(headers[1..]))
  {
    hide StoreLine, StoreLines, HeaderLine, StringLess, PlainHeader, Put;
    StoreNothing(done, "");
    StoreHeader(done, headers[0]);
    StoreTwo(done, "", HeaderLine(headers[0]), SplitLines(headers[1..]));
  }

  lemma StoreThree(host: string)
    requires FreeOf(host, {'\r', '\n'})
    ensures StoreLines([], SplitLines(OutgoingHeaders(host)))
         == Some([("Accept-Encoding", "utf-8"), ("Connection", "close"), ("Host", host)])
  {
    var h := OutgoingHeaders(host);
    assert PlainHeader(h[0]) && PlainHeader(h[1]) && PlainHeader(h[2]);
    PutThree(host);
    hide StoreLines, SplitLines, PlainHeader, Put;
    assert h[1..][0] == h[1] && h[1..][1..] == [h[2]] && [h[2]][1..] == [];
    StoreOne([], h);
    StoreOne([h[0]], h[1..]);
    StoreOne([h[1], h[0]], [h[2]]);
    NoLines([h[1], h[2], h[0]]);
  }

  lemma NoLines(headers: Headers)
    ensures StoreLines(headers, SplitLines([])) == Some(headers)
  {}

  lemma PutThree(host: string)
    ensures var h := OutgoingHeaders(host);
            && Put(StringLess, [], "Host", host) == [h[0]]
            && Put(StringLess, [h[0]], "Accept-Encoding", "utf-8") == [h[1], h[0]]
            && Put(StringLess, [h[1], h[0]], "Connection", "close") == [h[1], h[2], h[0]]
  {
    var h := OutgoingHeaders(host);
    assert "Accept-Encoding" != "Host" && "Connection" != "Host" && "Accept-Encoding"[0] != "Connection"[0];
    assert [h[1], h[0]][1..] == [h[0]];
    assert StringLess("Accept-Encoding", "Host") && StringLess("Connection", "Host");
    assert !StringLess("Connection", "Accept-Encoding");
  }

  lemma LineBreaksNowhere(host: string)
    requires FreeOf(host, {'\r', '\n'})
    ensures !Contains(host + CRLF, HEAD_END)
  {
    var s := host + CRLF;
    forall j: nat ensures !At(s, j, HEAD_END) {
      if At(s, j, HEAD_END) { EndFits(s, j); }
    }
  }

  lemma EndFits(s: string, j: nat)
    requires At(s, j, HEAD_END)
    ensures j + 4 <= |s| && s[j] == '\r' && s[j + 1] == '\n' && s[j + 2] == '\r'
  {
    EndCharacters(s, j);
  }

  /**
  The text that goes out, read as a reply would be, has exactly three headers: the host, an encoding, and
  that the connection is to be closed.
  */
  lemma OutgoingHeadersRead(method_: string, path: string, host: string)
    requires FreeOf(method_, {' ', '\r', '\n', ':'}) && FreeOf(path, {' ', '\r', '\n', ':'}) && FreeOf(host, {'\r', '\n'})
    ensures var text := OutgoingText(method_, path, host);
            HeadersOf(text, Find(text, "\r\n\r\n", 0))
            == Some([("Accept-Encoding", "utf-8"), ("Connection", "close"), ("Host", host)])
  {
    hide OutgoingText, OutgoingLines, OutgoingHeaders, HeadLines, Contains, Find, At, StoreLines, StoreLine, SplitLines, Split;
    hide FreeOf, PlainHeader;
    var line := method_ + " " + path + " " + "HTTP/1.1";
    LineIsPlain(method_, path);
    OutgoingParts(method_, path, host);
    LineBreaksNowhere(host);
    OwnEndsHead(line, host);
    OutgoingLinesAreHeaders(host);
    FrontOf(line + OutgoingLines(host), HEAD_END);
    Reassociate(line, OutgoingLines(host), HEAD_END);
    OutgoingHeadersPlain(host);
    SplitHead(line, OutgoingHeaders(host));
    StoreNothing([], line);
    StoreFirst([], line, SplitLines(OutgoingHeaders(host)));
    StoreThree(host);
  }

  lemma LineIsPlain(method_: string, path: string)
    requires FreeOf(method_, {' ', '\r', '\n', ':'}) && FreeOf(path, {' ', '\r', '\n', ':'})
    ensures var line := method_ + " " + path + " " + "HTTP/1.1";
            FreeOf(line, {'\r'}) && FreeOf(line, BREAKS) && FreeOf(line, {':'})
  {
    var line := method_ + " " + path + " " + "HTTP/1.1";
    assert FreeOf(line, {'\r', '\n', ':'});
  }

  lemma OutgoingHeadersPlain(host: string)
    requires FreeOf(host, {'\r', '\n'})
    ensures forall i :: 0 <= i < |OutgoingHeaders(host)| ==> PlainHeader(OutgoingHeaders(host)[i])
  {
    var h := OutgoingHeaders(host);
    assert PlainHeader(h[0]) && PlainHeader(h[1]) && PlainHeader(h[2]);
  }
}
