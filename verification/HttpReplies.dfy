/**
Printing of replies, and the proxy's reading of them: a subset of sections 3.1.2 and 3.2 of RFC 7230.
 */
module HttpReplies {
  import opened Wrappers
  import opened Text
  import opened OrderedMaps
  import Decimal

  const CRLF := "\r\n"
  const HEAD_END := "\r\n\r\n"
  const BREAKS: set<char> := {'\r', '\n'}

  type Headers = Pairs<string, string>

  /** The headers of a reply: a map, in the order of its keys. */
  type HeaderMap = h: Headers | Sorted(StringLess, h)

  // ---------- printing ----------

  function Reason(status: int): string {
    if status == 200 then "OK" else if status == 301 then "Moved Permanently" else ""
  }

  function StatusLine(status: int): string {
    "HTTP/1.1" + " " + Decimal.ToString(status) + " " + Reason(status)
  }

  function HeaderLine(h: (string, string)): string { h.0 + ": " + h.1 }

  function HeaderText(headers: Headers): string {
    if headers == [] then "" else HeaderLine(headers[0]) + CRLF + HeaderText(headers[1..])
  }

  function ReplyText(status: int, headers: Headers, body: string): string {
    StatusLine(status) + CRLF + HeaderText(headers) + CRLF + body
  }

  class Reply {
    const httpVer: string := "HTTP/1.1"
    var statusCode: int
    var headers: Headers
    var body: string

    constructor ()
      ensures headers == [] && body == ""
    {
      headers, body := [], "";
    }

    ghost predicate Valid()
      reads this
    {
      Sorted(StringLess, headers)
    }

    method SetStatus(status: int)
      modifies this`statusCode
      ensures statusCode == status
    {
      statusCode := status;
    }

    method SetHeader(key: string, value: string)
      requires Valid()
      modifies this`headers
      ensures Valid() && headers == Put(StringLess, old(headers), key, value)
      ensures ToMap(headers) == ToMap(old(headers))[key := value]
    {
      StringLessIsOrder();
      PutUpdates(StringLess, headers, key, value);
      headers := Put(StringLess, headers, key, value);
    }

    method SetBody(body: string)
      modifies this`body
      ensures this.body == body
    {
      this.body := body;
    }

    method ToString() returns (s: string)
      ensures s == ReplyText(statusCode, headers, body)
    {
      s := httpVer + " " + Decimal.ToString(statusCode) + " ";
      if statusCode == 200 {
        s := s + "OK";
      } else if statusCode == 301 {
        s := s + "Moved Permanently";
      }
      s := s + CRLF;
      ghost var front := s;
      for i := 0 to |headers|
        invariant s + HeaderText(headers[i..]) == front + HeaderText(headers)
      {
        var it := headers[i];
        assert headers[i..][1..] == headers[i + 1..];
        AppendLine(s, it.0, it.1, HeaderText(headers[i + 1..]));
        s := s + it.0;
        s := s + ": ";
        s := s + it.1;
        s := s + CRLF;
      }
      assert s + "" == s;
      s := s + CRLF;
      s := s + body;
    }
  }

  lemma AppendLine(s: string, key: string, value: string, rest: string)
    ensures s + (key + ": " + value + CRLF + rest) == s + key + ": " + value + CRLF + rest
  {}

  // ---------- reading ----------

  /** The number between the first two spaces; 400 when there are no two spaces. */
  function GetStatus(resp: string): Result<int, Decimal.Failure> {
    match Find(resp, " ", 0)
    case None => Ok(400)
    case Some(start) =>
      match Find(resp, " ", start + 1)
      case None => Ok(400)
      case Some(end) => Decimal.Stoi(resp[start + 1..end])
  }

  /** One line of the head; `None` where the program throws, for a line that ends with its first colon. */
  function StoreLine(headers: Headers, line: string): Option<Headers> {
    match Find(line, ":", 0)
    case None => Some(headers)
    case Some(pos) =>
      if pos + 2 > |line| then None else Some(Put(StringLess, headers, line[..pos], line[pos + 2..]))
  }

  function StoreLines(headers: Headers, lines: seq<string>): Option<Headers>
    decreases |lines|
  {
    if lines == [] then Some(headers) else
      match StoreLine(headers, lines[0])
      case None => None
      case Some(h) => StoreLines(h, lines[1..])
  }

  /** `resp.substr(0, start)`. */
  function Head(resp: string, start: Option<nat>): string {
    if start.Some? && start.value <= |resp| then resp[..start.value] else resp
  }

  function HeadersOf(resp: string, start: Option<nat>): Option<Headers> {
    StoreLines([], Split(Head(resp, start), BREAKS))
  }

  method GetHeaders(resp: string, start: Option<nat>) returns (headers: Option<Headers>)
    ensures headers == HeadersOf(resp, start)
  {
    var lines := Split(Head(resp, start), BREAKS);
    headers := Some([]);
    for i := 0 to |lines|
      invariant headers.Some? && StoreLines(headers.value, lines[i..]) == HeadersOf(resp, start)
    {
      assert lines[i..][1..] == lines[i + 1..];
      var pos := Find(lines[i], ":", 0);
      if pos.Some? {
        if pos.value + 2 > |lines[i]| {
          return None;
        }
        headers := Some(Put(StringLess, headers.value, lines[i][..pos.value], lines[i][pos.value + 2..]));
      }
    }
  }

  function GetBody(resp: string, start: Option<nat>): string
    requires start.Some? ==> start.value + 4 <= |resp|
  {
    if start.Some? then resp[start.value + 4..] else ""
  }

  // ---------- where the head ends ----------

  /** No end of a head begins in `x` when `t` follows. */
  ghost predicate NoEndIn(x: string, t: string) {
    forall j :: 0 <= j < |x| ==> !At(x + t, j, HEAD_END)
  }

  lemma EndCharacters(s: string, j: nat)
    requires At(s, j, HEAD_END)
    ensures s[j] == '\r' && s[j + 1] == '\n' && s[j + 2] == '\r' && s[j + 3] == '\n'
  {
    var e := s[j..j + 4];
    assert e[0] == s[j] && e[1] == s[j + 1] && e[2] == s[j + 2] && e[3] == s[j + 3];
  }

  lemma NoEndWithoutReturn(x: string, t: string)
    requires FreeOf(x, {'\r'})
    ensures NoEndIn(x, t)
  {
    forall j | 0 <= j < |x| ensures !At(x + t, j, HEAD_END) {
      assert (x + t)[j] == x[j] != '\r';
      if At(x + t, j, HEAD_END) { EndCharacters(x + t, j); }
    }
  }

  lemma NoEndAppend(x: string, y: string, t: string)
    requires NoEndIn(x, y + t) && NoEndIn(y, t)
    ensures NoEndIn(x + y, t)
  {
    assert x + y + t == x + (y + t);
    forall j | 0 <= j < |x + y| ensures !At(x + y + t, j, HEAD_END) {
      if |x| <= j { AtBehind(x, y + t, j - |x|, HEAD_END); }
    }
  }

  /** A line break in front of a line that is not empty. */
  lemma NoEndInLine(line: string, t: string)
    requires line != "" && FreeOf(line, BREAKS)
    ensures NoEndIn(CRLF + line, t)
  {
    NoEndWithoutReturn(line, t);
    var s := CRLF + (line + t);
    assert s[1] == '\n' && s[2] == line[0] != '\r';
    forall j | 0 <= j < 2 ensures !At(s, j, HEAD_END) {
      if At(s, j, HEAD_END) { EndCharacters(s, j); }
    }
    NoEndAppend(CRLF, line, t);
  }

  lemma FirstEnd(head: string, body: string)
    requires NoEndIn(head, HEAD_END + body)
    ensures Find(head + HEAD_END + body, HEAD_END, 0) == Some(|head|)
  {
    var s := head + HEAD_END + body;
    assert s == head + (HEAD_END + body);
    assert s[|head|..|head| + 4] == HEAD_END;
    FindIs(s, HEAD_END, 0, |head|);
  }

  // ---------- the round trip ----------

  /** A header that stays one line with its first colon behind its name. */
  ghost predicate PlainHeader(h: (string, string)) {
    FreeOf(h.0, {':', '\r', '\n'}) && FreeOf(h.1, {'\r', '\n'})
  }

  ghost predicate PlainHeaders(headers: Headers) {
    Sorted(StringLess, headers) && forall i :: 0 <= i < |headers| ==> PlainHeader(headers[i])
  }

  /** The header lines, each behind the line break that ends the line before it. */
  function HeadLines(headers: Headers): string {
    if headers == [] then "" else CRLF + HeaderLine(headers[0]) + HeadLines(headers[1..])
  }

  function ReplyHead(status: int, headers: Headers): string { StatusLine(status) + HeadLines(headers) }

  lemma {:induction false} HeadLinesEnd(headers: Headers)
    ensures CRLF + HeaderText(headers) == HeadLines(headers) + CRLF
  {
    if headers != [] {
      HeadLinesEnd(headers[1..]);
      var line := HeaderLine(headers[0]);
      assert CRLF + (line + CRLF + HeaderText(headers[1..])) == CRLF + line + (CRLF + HeaderText(headers[1..]));
      assert CRLF + line + (HeadLines(headers[1..]) + CRLF) == CRLF + line + HeadLines(headers[1..]) + CRLF;
    }
  }

  lemma ReplyTextSplits(status: int, headers: Headers, body: string)
    ensures ReplyText(status, headers, body) == ReplyHead(status, headers) + HEAD_END + body
  {
    hide StatusLine, HeaderText, HeadLines;
    HeadLinesEnd(headers);
    HeadParts(StatusLine(status), HeaderText(headers), HeadLines(headers), body);
  }

  lemma HeadParts(line: string, text: string, lines: string, body: string)
    requires CRLF + text == lines + CRLF
    ensures line + CRLF + text + CRLF + body == line + lines + HEAD_END + body
  {
    assert line + CRLF + text == line + (CRLF + text);
    assert line + (lines + CRLF) + CRLF == line + lines + (CRLF + CRLF);
  }

  lemma StatusLinePlain(status: int)
    ensures FreeOf(StatusLine(status), {':', '\r', '\n', '"', '\'', '('})
  {
    var chars := {':', '\r', '\n', '"', '\'', '('};
    NumberIsPlain(status, chars);
    hide Decimal.ToString, FreeOf;
    assert FreeOf("HTTP/1.1 ", chars) && FreeOf(" ", chars) && FreeOf(Reason(status), chars) by { PlainWords(status); }
    FreeOfAppend("HTTP/1.1 ", Decimal.ToString(status), chars);
    FreeOfAppend("HTTP/1.1 " + Decimal.ToString(status), " ", chars);
    FreeOfAppend("HTTP/1.1 " + Decimal.ToString(status) + " ", Reason(status), chars);
    assert "HTTP/1.1" + " " == "HTTP/1.1 ";
  }

  lemma PlainWords(status: int)
    ensures var chars := {':', '\r', '\n', '"', '\'', '('};
            FreeOf("HTTP/1.1 ", chars) && FreeOf(" ", chars) && FreeOf(Reason(status), chars)
  {}

  /** A printed number has only digits and a sign. */
  lemma NumberIsPlain(status: int, chars: set<char>)
    requires chars !! DIGITS && '-' !in chars
    ensures FreeOf(Decimal.ToString(status), chars)
  {
    var n: nat := if status < 0 then -status else status;
    var digits := Decimal.NatToString(n);
    assert forall i :: 0 <= i < |digits| ==> digits[i] in DIGITS;
    hide Decimal.NatToString;
  }

  lemma HeaderLinePlain(h: (string, string))
    requires PlainHeader(h)
    ensures FreeOf(HeaderLine(h), BREAKS) && HeaderLine(h) != ""
  {}

  lemma {:induction false} HeadHasNoEnd(headers: Headers, t: string)
    requires forall i :: 0 <= i < |headers| ==> PlainHeader(headers[i])
    ensures NoEndIn(HeadLines(headers), t)
    decreases |headers|
  {
    if headers != [] {
      HeaderLinePlain(headers[0]);
      hide PlainHeader, HeaderLine, NoEndIn;
      HeadHasNoEnd(headers[1..], t);
      var rest := HeadLines(headers[1..]);
      NoEndInLine(HeaderLine(headers[0]), rest + t);
      NoEndAppend(CRLF + HeaderLine(headers[0]), rest, t);
    }
  }

  /** The first empty line of a printed reply is the end of its head. */
  lemma ReplyEnd(status: int, headers: Headers, body: string)
    requires PlainHeaders(headers)
    ensures NoEndIn(ReplyHead(status, headers), HEAD_END + body)
    ensures Find(ReplyText(status, headers, body), HEAD_END, 0) == Some(|ReplyHead(status, headers)|)
  {
    StatusLinePlain(status);
    HeadHasNoEnd(headers, HEAD_END + body);
    NoEndWithoutReturn(StatusLine(status), HeadLines(headers) + (HEAD_END + body));
    NoEndAppend(StatusLine(status), HeadLines(headers), HEAD_END + body);
    ReplyTextSplits(status, headers, body);
    FirstEnd(ReplyHead(status, headers), body);
  }

  /** The status is read from the status line, whatever follows it. */
  lemma StatusRead(status: int, rest: string)
    requires -0x8000_0000 <= status <= 0x7fff_ffff
    ensures GetStatus(StatusLine(status) + rest) == Ok(status)
  {
    var n := Decimal.ToString(status);
    hide Decimal.ToString, Decimal.Stoi, GetStatus, Reason, FreeOf;
    NumberIsPlain(status, {' '});
    Decimal.StoiToString(status, "");
    assert n + "" == n;
    StatusParts("HTTP/1.1", n, Reason(status), rest);
    VersionIsPlain();
    BetweenSpaces("HTTP/1.1", n, Reason(status) + rest);
  }

  lemma VersionIsPlain()
    ensures FreeOf("HTTP/1.1", {' '})
  {}

  lemma StatusParts(x: string, n: string, reason: string, rest: string)
    ensures x + " " + n + " " + reason + rest == x + " " + (n + " " + (reason + rest))
  {}

  /** The status is what stands between the first two spaces. */
  lemma BetweenSpaces(x: string, n: string, z: string)
    requires FreeOf(x, {' '}) && FreeOf(n, {' '})
    ensures GetStatus(x + " " + (n + " " + z)) == Decimal.Stoi(n)
  {
    hide Find, At, FreeOf, Decimal.Stoi;
    var u := n + " " + z;
    FindFirst(x, ' ', u);
    FindFirst(n, ' ', z);
    NextSpace(x, u, |n|);
    Between(x, n, z);
  }

  lemma NextSpace(x: string, u: string, k: nat)
    requires Find(u, " ", 0) == Some(k)
    ensures Find(x + " " + u, " ", |x| + 1) == Some(|x| + 1 + k)
  {
    hide Find, At;
    FindBehind(x + " ", u, " ");
  }

  lemma Between(x: string, y: string, z: string)
    ensures (x + " " + (y + " " + z))[|x| + 1..|x| + 1 + |y|] == y
  {}

  /** The lines between the line breaks of a head, with an empty one inside each break. */
  function SplitLines(headers: Headers): seq<string> {
    if headers == [] then [] else ["", HeaderLine(headers[0])] + SplitLines(headers[1..])
  }

  lemma {:induction false} SplitHead(x: string, headers: Headers)
    requires FreeOf(x, BREAKS) && forall i :: 0 <= i < |headers| ==> PlainHeader(headers[i])
    ensures Split(x + HeadLines(headers), BREAKS) == [x] + SplitLines(headers)
    decreases |headers|
  {
    SplitFree(x, BREAKS);
    if headers == [] {
      assert x + "" == x;
    } else {
      var line, rest := HeaderLine(headers[0]), HeadLines(headers[1..]);
      HeaderLinePlain(headers[0]);
      SplitFree("", BREAKS);
      hide Split, HeaderLine, PlainHeader, FreeOf;
      SplitHead(line, headers[1..]);
      SplitAt("", '\n', line + rest, BREAKS);
      SplitAt(x, '\r', "" + ['\n'] + (line + rest), BREAKS);
      LineParts(x, line, SplitLines(headers[1..]));
      BreakParts(x, line, rest);
    }
  }

  lemma LineParts(x: string, line: string, lines: seq<string>)
    ensures [x] + ([""] + ([line] + lines)) == [x] + (["", line] + lines)
  {}

  lemma BreakParts(x: string, line: string, rest: string)
    ensures x + (CRLF + line + rest) == x + ['\r'] + ("" + ['\n'] + (line + rest))
  {}

  /** A header line stores its header. */
  lemma StoreHeader(headers: Headers, h: (string, string))
    requires PlainHeader(h)
    ensures StoreLine(headers, HeaderLine(h)) == Some(Put(StringLess, headers, h.0, h.1))
  {
    var line, key, value := HeaderLine(h), h.0, h.1;
    assert line == key + [':'] + (" " + value);
    forall j | 0 <= j < |key| ensures !At(line, j, ":") {
      AtChar(line, j, ':');
      assert line[j] == key[j];
    }
    AtChar(line, |key|, ':');
    FindIs(line, ":", 0, |key|);
    assert line[..|key|] == key && line[|key| + 2..] == value;
    hide Find, At, Put;
  }

  lemma StoreNothing(headers: Headers, line: string)
    requires FreeOf(line, {':'})
    ensures StoreLine(headers, line) == Some(headers)
  {
    if Find(line, ":", 0).Some? { AtChar(line, Find(line, ":", 0).value, ':'); }
  }

  /** A key behind all others goes to the end. */
  lemma {:induction false} PutLast(m: Headers, k: string, v: string)
    requires IsOrder(StringLess) && forall i :: 0 <= i < |m| ==> StringLess(m[i].0, k)
    ensures Put(StringLess, m, k, v) == m + [(k, v)]
    decreases |m|
  {
    hide StringLess, IsOrder;
    if m != [] {
      assert StringLess(m[0].0, k);
      StringLessTotal(k, m[0].0);
      PutLast(m[1..], k, v);
      assert [m[0]] + (m[1..] + [(k, v)]) == m + [(k, v)];
    }
  }

  lemma {:induction false} StoreAll(done: Headers, headers: Headers)
    requires PlainHeaders(done + headers)
    ensures StoreLines(done, SplitLines(headers)) == Some(done + headers)
    decreases |headers|
  {
    if headers == [] {
      assert done + headers == done;
    } else {
      StoreNext(done, headers);
      hide StoreLines, SplitLines, PlainHeaders;
      assert done + [headers[0]] + headers[1..] == done + headers;
      StoreAll(done + [headers[0]], headers[1..]);
    }
  }

  /** The two lines of the next header, of which one is empty, put it behind all others. */
  lemma StoreNext(done: Headers, headers: Headers)
    requires PlainHeaders(done + headers) && headers != []
    ensures StoreLines(done, SplitLines(headers)) == StoreLines(done + [headers[0]], SplitLines(headers[1..]))
  {
    hide StoreLine, StoreLines, HeaderLine, StringLess, PlainHeader, PlainHeaders, Put, IsOrder;
    var h := headers[0];
    StringLessIsOrder();
    HeaderBehind(done, headers);
    PutLast(done, h.0, h.1);
    StoreNothing(done, "");
    StoreHeader(done, h);
    StoreTwo(done, "", HeaderLine(h), SplitLines(headers[1..]));
  }

  lemma HeaderBehind(done: Headers, headers: Headers)
    requires PlainHeaders(done + headers) && headers != []
    ensures PlainHeader(headers[0])
    ensures forall i :: 0 <= i < |done| ==> StringLess(done[i].0, headers[0].0)
  {
    hide StringLess, PlainHeader;
    var all, n := done + headers, |done|;
    assert all[n] == headers[0];
    assert forall i :: 0 <= i < n ==> all[i] == done[i] && StringLess(all[i].0, all[n].0);
  }

  lemma StoreTwo(headers: Headers, a: string, b: string, rest: seq<string>)
    requires StoreLine(headers, a) == Some(headers) && StoreLine(headers, b).Some?
    ensures StoreLines(headers, [a, b] + rest) == StoreLines(StoreLine(headers, b).value, rest)
  {
    var lines := [a, b] + rest;
    assert lines[1..] == [b] + rest && lines[1..][1..] == rest;
  }

  /** The headers of a head are read back, in the order they were printed in. */
  lemma HeadersRead(status: int, headers: Headers, tail: string)
    requires PlainHeaders(headers)
    ensures HeadersOf(ReplyHead(status, headers) + tail, Some(|ReplyHead(status, headers)|)) == Some(headers)
  {
    hide StatusLine, HeadLines, StoreLine, StoreLines, SplitLines, Split, PlainHeader, Sorted, FreeOf;
    var head, line := ReplyHead(status, headers), StatusLine(status);
    FrontOf(head, tail);
    StatusLinePlain(status);
    StatusLineApart(line);
    SplitHead(line, headers);
    StoreNothing([], line);
    assert [] + headers == headers;
    StoreAll([], headers);
    StoreFirst([], line, SplitLines(headers));
  }

  lemma StatusLineApart(line: string)
    requires FreeOf(line, {':', '\r', '\n', '"', '\'', '('})
    ensures FreeOf(line, {':'}) && FreeOf(line, BREAKS)
  {}

  lemma FrontOf(head: string, tail: string)
    ensures (head + tail)[..|head|] == head
  {}

  lemma StoreFirst(headers: Headers, line: string, rest: seq<string>)
    ensures StoreLines(headers, [line] + rest) ==
            if StoreLine(headers, line).None? then None else StoreLines(StoreLine(headers, line).value, rest)
  {
    assert ([line] + rest)[1..] == rest;
    hide StoreLine;
  }

  /** What the proxy's three readers make of a printed reply: its status, its headers and its body. */
  lemma ReplyRoundTrip(status: int, headers: Headers, body: string)
    requires -0x8000_0000 <= status <= 0x7fff_ffff && PlainHeaders(headers)
    ensures var resp := ReplyText(status, headers, body);
            var start := Find(resp, HEAD_END, 0);
            && start.Some? && start.value + 4 <= |resp|
            && GetStatus(resp) == Ok(status)
            && HeadersOf(resp, start) == Some(headers)
            && GetBody(resp, start) == body
  {
    hide StatusLine, HeadLines, ReplyText, ReplyHead, Find, At, NoEndIn, PlainHeaders, GetStatus, HeadersOf;
    ReplyTextParts(status, headers, body);
    ReplyEnd(status, headers, body);
    HeadersRead(status, headers, HEAD_END + body);
    StatusRead(status, HeadLines(headers) + (HEAD_END + body));
    Behind(ReplyHead(status, headers), body);
  }

  lemma ReplyTextParts(status: int, headers: Headers, body: string)
    ensures ReplyText(status, headers, body) == ReplyHead(status, headers) + (HEAD_END + body)
    ensures ReplyText(status, headers, body) == StatusLine(status) + (HeadLines(headers) + (HEAD_END + body))
  {
    ReplyTextSplits(status, headers, body);
    hide StatusLine, HeadLines, ReplyText;
    Apart(StatusLine(status), HeadLines(headers), body);
  }

  lemma Apart(line: string, lines: string, body: string)
    ensures line + lines + HEAD_END + body == line + lines + (HEAD_END + body) == line + (lines + (HEAD_END + body))
  {}

  lemma Behind(head: string, body: string)
    ensures |head + (HEAD_END + body)| >= |head| + 4 && (head + (HEAD_END + body))[|head| + 4..] == body
  {}

  // ---------- the printed text, line by line ----------

  lemma StatusLineIs(status: int)
    ensures StatusLine(status) == "HTTP/1.1 " + Decimal.ToString(status) + " "
              + (if status == 200 then "OK" else if status == 301 then "Moved Permanently" else "")
  {
    hide Decimal.ToString;
    assert "HTTP/1.1" + " " == "HTTP/1.1 ";
  }

  lemma {:induction false} SplitHeaderText(headers: Headers, rest: string)
    requires forall i :: 0 <= i < |headers| ==> FreeOf(headers[i].0, {'\n'}) && FreeOf(headers[i].1, {'\n'})
    ensures var lines := Split(HeaderText(headers) + rest, {'\n'});
            && |lines| == |headers| + |Split(rest, {'\n'})|
            && lines[|headers|..] == Split(rest, {'\n'})
            && forall i :: 0 <= i < |headers| ==> lines[i] == headers[i].0 + ": " + headers[i].1 + "\r"
    decreases |headers|
  {
    if headers == [] {
      assert HeaderText(headers) + rest == rest;
    } else {
      hide Split, FreeOf, HeaderText;
      var h := headers[0];
      var line, more := h.0 + ": " + h.1 + "\r", HeaderText(headers[1..]) + rest;
      HeaderHasNoFeed(h);
      NextHeader(headers, rest);
      SplitHeaderText(headers[1..], rest);
      SplitFree(line, {'\n'});
      SplitAt(line, '\n', more, {'\n'});
      OneMoreLine(line, Split(more, {'\n'}), |headers| - 1);
      assert forall i :: 1 <= i < |headers| ==> headers[i] == headers[1..][i - 1];
    }
  }

  lemma HeaderHasNoFeed(h: (string, string))
    requires FreeOf(h.0, {'\n'}) && FreeOf(h.1, {'\n'})
    ensures FreeOf(h.0 + ": " + h.1 + "\r", {'\n'})
  {}

  lemma NextHeader(headers: Headers, rest: string)
    requires headers != []
    ensures HeaderText(headers) + rest
         == (headers[0].0 + ": " + headers[0].1 + "\r") + ['\n'] + (HeaderText(headers[1..]) + rest)
  {
    OneLineApart(headers[0].0 + ": " + headers[0].1, HeaderText(headers[1..]), rest);
  }

  lemma OneMoreLine(line: string, lines: seq<string>, n: nat)
    requires n <= |lines|
    ensures ([line] + lines)[n + 1..] == lines[n..]
    ensures forall i :: 1 <= i <= |lines| ==> ([line] + lines)[i] == lines[i - 1]
  {}

  lemma OneLineApart(line: string, text: string, rest: string)
    ensures line + CRLF + text + rest == line + "\r" + ['\n'] + (text + rest)
  {}

  /**
  Cut at its line feeds, a printed reply has a line with the version, the number and the reason, a line for
  each header in order, an empty line, and then the lines of the body.
  */
  lemma ReplyLines(status: int, headers: Headers, body: string)
    requires forall i :: 0 <= i < |headers| ==> FreeOf(headers[i].0, {'\n'}) && FreeOf(headers[i].1, {'\n'})
    ensures var lines, n := Split(ReplyText(status, headers, body), {'\n'}), |headers|;
            && |lines| == n + 2 + |Split(body, {'\n'})|
            && lines[0] == "HTTP/1.1 " + Decimal.ToString(status) + " "
                           + (if status == 200 then "OK" else if status == 301 then "Moved Permanently" else "") + "\r"
            && (forall i :: 0 <= i < n ==> lines[i + 1] == headers[i].0 + ": " + headers[i].1 + "\r")
            && lines[n + 1] == "\r"
            && lines[n + 2..] == Split(body, {'\n'})
  {
    hide Split, FreeOf, HeaderText, StatusLine, Reason, Decimal.ToString;
    var line, rest := StatusLine(status) + "\r", "\r" + ['\n'] + body;
    StatusLineIs(status);
    StatusLineHasNoFeed(status);
    ReturnHasNoFeed();
    SplitFree("\r", {'\n'});
    SplitAt("\r", '\n', body, {'\n'});
    SplitHeaderText(headers, rest);
    HeadApart(StatusLine(status), HeaderText(headers), body);
    SplitFree(line, {'\n'});
    SplitAt(line, '\n', HeaderText(headers) + rest, {'\n'});
    var n, lines := |headers|, Split(ReplyText(status, headers, body), {'\n'});
    var behind := Split(HeaderText(headers) + rest, {'\n'});
    assert lines == [line] + behind;
    assert behind[n..] == ["\r"] + Split(body, {'\n'});
    assert behind[n] == behind[n..][0] && lines[n + 2..] == behind[n..][1..];
  }

  lemma StatusLineHasNoFeed(status: int)
    ensures FreeOf(StatusLine(status) + "\r", {'\n'})
  {
    StatusLinePlain(status);
    hide StatusLine;
  }

  lemma ReturnHasNoFeed()
    ensures FreeOf("\r", {'\n'})
  {}

  lemma HeadApart(line: string, text: string, body: string)
    ensures line + CRLF + text + CRLF + body == line + "\r" + ['\n'] + (text + ("\r" + ['\n'] + body))
  {}

  // ---------- what the readers make of other texts ----------

  /** Without two spaces there is no status to read, and it counts as a bad request. */
  lemma NoStatusIsBadRequest(x: string, y: string)
    requires FreeOf(x, {' '}) && FreeOf(y, {' '})
    ensures GetStatus(x) == Ok(400) && GetStatus(x + " " + y) == Ok(400)
  {
    FindNowhere(x, ' ');
    FindNowhere(y, ' ');
    FindFirst(x, ' ', y);
    hide Find, At, FreeOf;
    assert x + " " + y == x + [' '] + y;
    FindBehind(x + " ", y, " ");
  }

  /** A line is cut at its first colon, and one character behind that is dropped; with none there it throws. */
  lemma HeaderLineIsCut(headers: Headers, key: string, c: char, value: string)
    requires FreeOf(key, {':'})
    ensures StoreLine(headers, key) == Some(headers)
    ensures StoreLine(headers, key + ":") == None
    ensures StoreLine(headers, key + ":" + [c] + value) == Some(Put(StringLess, headers, key, value))
  {
    hide Find, At, Put, FreeOf, StringLess;
    StoreNothing(headers, key);
    FindFirst(key, ':', "");
    FindFirst(key, ':', [c] + value);
    assert key + [':'] + "" == key + ":";
    assert key + [':'] + ([c] + value) == key + ":" + [c] + value;
    CutAtColon(key, c, value);
  }

  lemma CutAtColon(key: string, c: char, value: string)
    ensures var line := key + ":" + [c] + value;
            line[..|key|] == key && line[|key| + 2..] == value
  {}

  /** A reply that breaks off behind its last header has these headers, and no body. */
  lemma HeadAlone(status: int, headers: Headers)
    requires PlainHeaders(headers)
    ensures HeadersOf(ReplyHead(status, headers), None) == Some(headers)
    ensures GetBody(ReplyHead(status, headers), None) == ""
  {
    hide ReplyHead, PlainHeaders, StoreLines, Split;
    var head := ReplyHead(status, headers);
    HeadersRead(status, headers, "");
    assert head + "" == head && head[..|head|] == head;
  }
}
