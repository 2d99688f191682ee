/**
Parsing of HTTP requests: a subset of the request line of section 3.1.1 of RFC 7230, and form bodies in the
manner of section 17.13.4 of HTML 4.01 without percent-decoding.
 */
module HttpRequests {
  import opened Wrappers
  import opened Text

  const CRLF := "\r\n"
  const HEAD_END := "\r\n\r\n"

  /** What a request says, once it is accepted. */
  datatype Parsed = Parsed(method_: string, uri: string, version: string, body: string, params: map<string, string>)

  // ---------- the request line ----------

  /** The text before the first carriage return. */
  function RequestLine(s: string): string { s[..SpanOut(s, {'\r'})] }

  function Fields(line: string): seq<string> { Split(line, {' '}) }

  function Field(fields: seq<string>, i: nat): string {
    if i < |fields| then fields[i] else ""
  }

  /** Only the last field may be empty: no leading space, and no two spaces in a row. */
  predicate CleanlySpaced(fields: seq<string>) {
    forall i :: 0 <= i < |fields| - 1 ==> fields[i] != ""
  }

  function Lower(c: char): char {
    if 'A' <= c <= 'Z' then c - 'A' + 'a' else c
  }

  /** `boost::iequals`. */
  predicate EqualsIgnoringCase(s: string, t: string) {
    |s| == |t| && forall i :: 0 <= i < |s| ==> Lower(s[i]) == Lower(t[i])
  }

  predicate IsMethod(m: string) {
    EqualsIgnoringCase(m, "GET") || EqualsIgnoringCase(m, "POST")
  }

  predicate IsValid(s: string) {
    var fields := Fields(RequestLine(s));
    CleanlySpaced(fields) && IsMethod(Field(fields, 0)) && Field(fields, 2) == "HTTP/1.1"
  }

  /**
  The text behind the head. Without an end of the head the program adds four to the largest size, which
  wraps around to three.
  */
  function BodyOf(s: string): string
    requires |s| >= 3
  {
    match Find(s, HEAD_END, 0)
    case None => s[3..]
    case Some(k) => s[k + 4..]
  }

  /** What the program makes of the text of a request. */
  function Parse(s: string): Option<Parsed> {
    if !IsValid(s) then None else
      var fields := Fields(RequestLine(s));
      ValidLength(s);
      Some(Parsed(fields[0], Field(fields, 1), Field(fields, 2), BodyOf(s), Params(BodyOf(s))))
  }

  lemma ParsesIffValid(s: string)
    ensures Parse(s).Some? <==> IsValid(s)
  {}

  lemma ValidLength(s: string)
    requires IsValid(s)
    ensures |s| >= 3 && |Fields(RequestLine(s))| >= 3
  {
    var line := RequestLine(s);
    FieldsFit(line);
    assert |Fields(line)[0]| >= 3;
  }

  lemma {:induction false} FieldsFit(line: string)
    ensures forall i :: 0 <= i < |Fields(line)| ==> |Fields(line)[i]| <= |line|
  {
    if line != "" {
      var x, c := line[..|line| - 1], line[|line| - 1];
      FieldsFit(x);
      assert Fields(line) == Extend(Fields(x), c, {' '});
    }
  }

  /** The text `body` is what stands behind the first empty line of `s`. */
  ghost predicate BehindFirstEmptyLine(s: string, body: string) {
    exists k: nat :: At(s, k, HEAD_END) && (forall j :: 0 <= j < k ==> !At(s, j, HEAD_END)) && body == s[k + |HEAD_END|..]
  }

  /** The body of a valid request is what follows its first empty line exactly when it has an empty line. */
  lemma BodyIsBehindHeadIff(s: string)
    requires IsValid(s)
    ensures |s| >= 3 && (BehindFirstEmptyLine(s, BodyOf(s)) <==> Contains(s, HEAD_END))
    ensures !Contains(s, HEAD_END) ==> BodyOf(s) == s[3..] != ""
  {
    ValidLength(s);
    NothingEarlier(s, HEAD_END, 0);
    LongerThanMethod(s);
    hide At, Find, IsValid;
  }

  lemma LongerThanMethod(s: string)
    requires IsValid(s)
    ensures |s| > 3
  {
    var line := RequestLine(s);
    ValidLength(s);
    FieldsFit(line);
    assert |Fields(line)[2]| == |"HTTP/1.1"|;
  }

  const BARE_LINE := "GET / HTTP/1.1"

  lemma WholeLine(s: string)
    requires FreeOf(s, {'\r'})
    ensures RequestLine(s) == s
  {
    SpanOutIs(s, {'\r'}, |s|);
  }

  lemma BareLineFields()
    ensures Fields(RequestLine(BARE_LINE)) == ["GET", "/", "HTTP/1.1"] && FreeOf(BARE_LINE, {'\r'})
  {
    hide Fields, RequestLine;
    WholeLine(BARE_LINE);
    assert BARE_LINE == "GET" + " " + "/" + " " + "HTTP/1.1";
    ThreeFields("GET", "/", "HTTP/1.1");
  }

  lemma BareLineIsValid()
    ensures IsValid(BARE_LINE)
  {
    BareLineFields();
    hide Fields, RequestLine, FreeOf;
  }

  /** A request without an empty line, and what the program takes for its body. */
  lemma BodyWrapsAround()
    ensures Parse(BARE_LINE).Some? && Parse(BARE_LINE).value.body == " / HTTP/1.1"
  {
    hide Fields, IsValid, RequestLine, Find, Params;
    BareLineFields();
    BareLineIsValid();
    FindNoReturn(BARE_LINE);
    assert BARE_LINE[3..] == " / HTTP/1.1";
  }

  lemma FindNoReturn(s: string)
    requires FreeOf(s, {'\r'})
    ensures Find(s, HEAD_END, 0) == None
  {
    var r := Find(s, HEAD_END, 0);
    if r.Some? { BeginsWithReturn(s, r.value); }
  }

  lemma BeginsWithReturn(s: string, k: nat)
    requires At(s, k, HEAD_END)
    ensures k < |s| && s[k] == '\r'
  {
    assert s[k..k + |HEAD_END|][0] == s[k];
  }

  // ---------- form bodies ----------

  /** The updates that a form body makes to `m`; a last value is searched once more for `=`. */
  function ParamsFrom(m: map<string, string>, body: string): map<string, string>
    decreases |body|
  {
    match Find(body, "=", 0)
    case None => m
    case Some(p) =>
      var key, rest := body[..p], body[p + 1..];
      match Find(rest, "&", 0)
      case None => ParamsFrom(m[key := rest], rest)
      case Some(q) => ParamsFrom(m[key := rest[..q]], rest[q + 1..])
  }

  function Params(body: string): map<string, string> { ParamsFrom(map[], body) }

  function FormText(pairs: seq<(string, string)>): string {
    if pairs == [] then ""
    else pairs[0].0 + "=" + pairs[0].1 + if |pairs| == 1 then "" else "&" + FormText(pairs[1..])
  }

  /** The pairs stored from left to right. */
  function Store(m: map<string, string>, pairs: seq<(string, string)>): map<string, string>
    decreases |pairs|
  {
    if pairs == [] then m else Store(m[pairs[0].0 := pairs[0].1], pairs[1..])
  }

  /**
  A form body sets its pairs from left to right, and then, since the search goes on in the last value
  itself, whatever pairs the last value holds.
  */
  lemma {:induction false} FormRoundTrip(m: map<string, string>, pairs: seq<(string, string)>)
    requires pairs != []
    requires forall i :: 0 <= i < |pairs| ==> FreeOf(pairs[i].0, {'='}) && FreeOf(pairs[i].1, {'&'})
    ensures ParamsFrom(m, FormText(pairs)) == ParamsFrom(Store(m, pairs), pairs[|pairs| - 1].1)
    decreases |pairs|
  {
    hide Find, At, ParamsFrom;
    var (key, value) := pairs[0];
    if |pairs| == 1 {
      assert FormText(pairs) == key + ['='] + value && pairs[1..] == [];
      LastPair(m, key, value);
    } else {
      var tail := FormText(pairs[1..]);
      assert FormText(pairs) == key + ['='] + (value + ['&'] + tail);
      FirstPair(m, key, value, tail);
      FormRoundTrip(m[key := value], pairs[1..]);
    }
  }

  /** A pair behind which the form goes on. */
  lemma FirstPair(m: map<string, string>, key: string, value: string, tail: string)
    requires FreeOf(key, {'='}) && FreeOf(value, {'&'})
    ensures ParamsFrom(m, key + ['='] + (value + ['&'] + tail)) == ParamsFrom(m[key := value], tail)
  {
    var rest := value + ['&'] + tail;
    FindFirst(key, '=', rest);
    FindFirst(value, '&', tail);
    hide Find, At;
    Cut(key, '=', rest);
    Cut(value, '&', tail);
  }

  /** The last pair of a form. */
  lemma LastPair(m: map<string, string>, key: string, value: string)
    requires FreeOf(key, {'='}) && FreeOf(value, {'&'})
    ensures ParamsFrom(m, key + ['='] + value) == ParamsFrom(m[key := value], value)
  {
    FindFirst(key, '=', value);
    FindNowhere(value, '&');
    hide Find, At;
    Cut(key, '=', value);
  }

  lemma Cut(x: string, c: char, y: string)
    ensures (x + [c] + y)[..|x|] == x && (x + [c] + y)[|x| + 1..] == y
  {}

  /** The pairs that a value holds itself: it is cut at each of its `=` in turn. */
  function Inner(v: string): seq<(string, string)>
    decreases |v|
  {
    match Find(v, "=", 0)
    case None => []
    case Some(p) => [(v[..p], v[p + 1..])] + Inner(v[p + 1..])
  }

  /** A last value sets the pairs that it holds. */
  lemma {:induction false} InnerIsStored(m: map<string, string>, v: string)
    requires FreeOf(v, {'&'})
    ensures ParamsFrom(m, v) == Store(m, Inner(v))
    decreases |v|
  {
    hide At, Find;
    if Find(v, "=", 0).Some? {
      var p := Find(v, "=", 0).value;
      AtChar(v, p, '=');
      var key, rest := v[..p], v[p + 1..];
      FindNowhere(rest, '&');
      InnerIsStored(m[key := rest], rest);
      assert Inner(v)[1..] == Inner(rest);
    }
  }

  /** No later pair has the same key. */
  ghost predicate IsLastOfKey(qs: seq<(string, string)>, i: nat) {
    i < |qs| && forall j :: i < j < |qs| ==> qs[j].0 != qs[i].0
  }

  /** Every key of `qs` has in `m` the value that the last pair with that key gives it. */
  ghost predicate Agrees(m: map<string, string>, qs: seq<(string, string)>) {
    forall i: nat :: IsLastOfKey(qs, i) ==> qs[i].0 in m && m[qs[i].0] == qs[i].1
  }

  /** Pairs without a key leave its value as it is. */
  lemma {:induction false} StoreKeeps(m: map<string, string>, qs: seq<(string, string)>, k: string)
    requires forall i :: 0 <= i < |qs| ==> qs[i].0 != k
    ensures (k in Store(m, qs) <==> k in m) && (k in m ==> Store(m, qs)[k] == m[k])
    decreases |qs|
  {
    if qs != [] {
      StoreKeeps(m[qs[0].0 := qs[0].1], qs[1..], k);
    }
  }

  /** Of the pairs with one key the last one counts. */
  lemma {:induction false} StoreLast(m: map<string, string>, qs: seq<(string, string)>, i: nat)
    requires IsLastOfKey(qs, i)
    ensures qs[i].0 in Store(m, qs) && Store(m, qs)[qs[i].0] == qs[i].1
    decreases |qs|
  {
    var next := m[qs[0].0 := qs[0].1];
    if i > 0 {
      StoreLast(next, qs[1..], i - 1);
    } else {
      StoreKeeps(next, qs[1..], qs[0].0);
    }
  }

  lemma {:induction false} LastOfKey(qs: seq<(string, string)>, i: nat) returns (j: nat)
    requires i < |qs|
    ensures IsLastOfKey(qs, j) && qs[j].0 == qs[i].0
    decreases |qs| - i
  {
    if k :| i < k < |qs| && qs[k].0 == qs[i].0 {
      j := LastOfKey(qs, k);
    } else {
      j := i;
    }
  }

  /** Storing pairs changes nothing exactly when the map agrees with them. */
  lemma StoreChangesNothingIff(m: map<string, string>, qs: seq<(string, string)>)
    ensures Store(m, qs) == m <==> Agrees(m, qs)
  {
    forall i: nat | IsLastOfKey(qs, i) ensures qs[i].0 in Store(m, qs) && Store(m, qs)[qs[i].0] == qs[i].1 {
      StoreLast(m, qs, i);
    }
    hide Store, IsLastOfKey;
    if Agrees(m, qs) {
      forall k ensures (k in Store(m, qs) <==> k in m) && (k in m ==> Store(m, qs)[k] == m[k]) {
        if i: nat :| i < |qs| && qs[i].0 == k {
          var j := LastOfKey(qs, i);
        } else {
          StoreKeeps(m, qs, k);
        }
      }
    }
  }

  function LastValue(pairs: seq<(string, string)>): string {
    if pairs == [] then "" else pairs[|pairs| - 1].1
  }

  /** What reading a form sets: its pairs, and then those that its last value holds. */
  lemma FormSets(pairs: seq<(string, string)>)
    requires forall i :: 0 <= i < |pairs| ==> FreeOf(pairs[i].0, {'='}) && FreeOf(pairs[i].1, {'&'})
    ensures Params(FormText(pairs)) == Store(Store(map[], pairs), Inner(LastValue(pairs)))
  {
    if pairs == [] {
      FindNowhere("", '=');
    } else {
      FormRoundTrip(map[], pairs);
      hide ParamsFrom, Inner, Find, At, FormText;
      InnerIsStored(Store(map[], pairs), LastValue(pairs));
    }
  }

  /**
  A form sets its pairs and no more exactly when whatever its last value holds is already there: for each key
  inside the last value, the pairs have set the same value.
  */
  lemma FormSetsPairsIff(pairs: seq<(string, string)>)
    requires forall i :: 0 <= i < |pairs| ==> FreeOf(pairs[i].0, {'='}) && FreeOf(pairs[i].1, {'&'})
    ensures Params(FormText(pairs)) == Store(map[], pairs)
       <==> Agrees(Store(map[], pairs), Inner(LastValue(pairs)))
  {
    FormSets(pairs);
    hide Params, Store, Inner, Agrees;
    StoreChangesNothingIff(Store(map[], pairs), Inner(LastValue(pairs)));
  }

  lemma {:induction false} InnerIsShorter(v: string)
    ensures forall i :: 0 <= i < |Inner(v)| ==> |Inner(v)[i].1| < |v|
    ensures Inner(v) == [] <==> FreeOf(v, {'='})
    decreases |v|
  {
    hide At;
    if Find(v, "=", 0).Some? {
      var p := Find(v, "=", 0).value;
      AtChar(v, p, '=');
      hide Find;
      InnerIsShorter(v[p + 1..]);
    } else {
      NothingEarlier(v, "=", 0);
      forall i | 0 <= i < |v| ensures v[i] != '=' {
        AtChar(v, i, '=');
      }
    }
  }

  /** A form of one pair is read back exactly when its value is free of `=`. */
  lemma OnePairIff(key: string, value: string)
    requires FreeOf(key, {'='}) && FreeOf(value, {'&'})
    ensures Params(FormText([(key, value)])) == map[key := value] <==> FreeOf(value, {'='})
  {
    var pairs, qs := [(key, value)], Inner(value);
    assert pairs[1..] == [] && Store(map[], pairs) == map[key := value];
    FormSetsPairsIff(pairs);
    InnerIsShorter(value);
    hide Params, FormText, Inner;
    if qs != [] {
      assert IsLastOfKey(qs, |qs| - 1);
    }
  }

  /** An `=` in the last value does no harm when it repeats an earlier pair. */
  lemma RepeatedPairDoesNoHarm(x: string, y: string, key: string)
    requires FreeOf(x, {'=', '&'}) && FreeOf(y, {'=', '&'}) && FreeOf(key, {'='}) && key != x
    ensures Params(FormText([(x, y), (key, x + "=" + y)])) == map[x := y, key := x + "=" + y]
  {
    var pairs, last := [(x, y), (key, x + "=" + y)], x + ['='] + y;
    FindFirst(x, '=', y);
    Cut(x, '=', y);
    InnerIsShorter(y);
    assert pairs[1..] == [pairs[1]] && pairs[1..][1..] == [];
    hide At, Find, Params, FormText;
    assert Inner(last) == [(x, y)] + [] == [(x, y)];
    FormSetsPairsIff(pairs);
    assert Store(map[], pairs) == Store(map[x := y], [pairs[1]]) == map[x := y, key := last];
  }

  /** With no `=` in the last value, nothing but the pairs is set. */
  lemma FormSetsPairs(pairs: seq<(string, string)>)
    requires forall i :: 0 <= i < |pairs| ==> FreeOf(pairs[i].0, {'='}) && FreeOf(pairs[i].1, {'&'})
    requires pairs != [] ==> FreeOf(pairs[|pairs| - 1].1, {'='})
    ensures Params(FormText(pairs)) == Store(map[], pairs)
  {
    if pairs == [] {
      FindNowhere("", '=');
    } else {
      FormRoundTrip(map[], pairs);
      FindNowhere(pairs[|pairs| - 1].1, '=');
    }
  }

  /** An `=` in the last value sets a pair that the form does not hold. */
  lemma LastValueSetsMore(key: string, inner: string, value: string)
    requires FreeOf(key, {'='}) && FreeOf(inner, {'=', '&'}) && FreeOf(value, {'=', '&'})
    ensures Params(FormText([(key, inner + "=" + value)])) == map[key := inner + "=" + value][inner := value]
  {
    var last := inner + ['='] + value;
    FormRoundTrip(map[], [(key, last)]);
    assert Store(map[], [(key, last)]) == map[key := last] by { assert [(key, last)][1..] == []; }
    LastPair(map[key := last], inner, value);
    FindNowhere(value, '=');
  }

  // ---------- the parser ----------

  class Request {
    var valid: bool
    var originalRequest: string
    var method_: string
    var uri: string
    var version: string
    var body: string
    var params: map<string, string>

    constructor (originalRequest: string)
      ensures !valid && this.originalRequest == originalRequest
      ensures method_ == uri == version == body == "" && params == map[]
    {
      valid := false;
      this.originalRequest := originalRequest;
      method_, uri, version, body := "", "", "", "";
      params := map[];
    }

    method SetParams(body: string)
      modifies this`params
      ensures params == Params(body)
    {
      var rest := body;
      var paramsMap: map<string, string> := map[];
      var pos := Find(rest, "=", 0);
      while pos.Some?
        invariant pos == Find(rest, "=", 0) && ParamsFrom(paramsMap, rest) == Params(body)
        decreases |rest|
      {
        var key := rest[..pos.value];
        rest := rest[pos.value + 1..];
        var value;
        pos := Find(rest, "&", 0);
        if pos.Some? {
          value := rest[..pos.value];
          rest := rest[pos.value + 1..];
        } else {
          value := rest;
        }
        paramsMap := paramsMap[key := value];
        pos := Find(rest, "=", 0);
      }
      params := paramsMap;
    }
  }

  /** The last field is empty at the start of the line and behind a space. */
  lemma LastField(x: string)
    ensures Fields(x)[|Fields(x)| - 1] == "" <==> x == "" || x[|x| - 1] == ' '
  {}

  /** A space where a field is empty: the line is not cleanly spaced, whatever follows. */
  lemma BadSpace(line: string, i: nat)
    requires i < |line| && line[i] == ' ' && (i == 0 || line[i - 1] == ' ')
    ensures !CleanlySpaced(Fields(line))
  {
    var x, y := line[..i], line[i + 1..];
    assert line == x + [' '] + y;
    SplitAt(x, ' ', y, {' '});
    LastField(x);
    var f := Fields(x);
    assert Fields(line)[|f| - 1] == f[|f| - 1] == "";
  }

  /** One more character that is no bad space. */
  lemma NextCharacter(x: string, c: char)
    requires CleanlySpaced(Fields(x)) && (c == ' ' ==> x != "" && x[|x| - 1] != ' ')
    ensures var f, g := Fields(x), Fields(x + [c]);
            && CleanlySpaced(g)
            && |g| == (if c == ' ' then |f| + 1 else |f|)
            && forall i: nat :: Field(g, i) == Field(f, i) + if c != ' ' && i == |f| - 1 then [c] else ""
  {
    SplitSnoc(x, c, {' '});
    LastField(x);
    hide Split;
  }

  /** The fields of the line read so far, as the loop has them. */
  ghost predicate ReadSoFar(x: string, count: int, method_: string, url: string, version: string) {
    var f := Fields(x);
    && FreeOf(x, {'\r'})
    && CleanlySpaced(f)
    && count == |f| - 1
    && method_ == Field(f, 0)
    && url == Field(f, 1)
    && version == Field(f, 2)
  }

  lemma ReadMore(x: string, c: char, count: int, method_: string, url: string, version: string)
    requires ReadSoFar(x, count, method_, url, version) && c != '\r'
    requires c == ' ' ==> x != "" && x[|x| - 1] != ' '
    ensures ReadSoFar(x + [c], if c == ' ' then count + 1 else count,
                      if c != ' ' && count == 0 then method_ + [c] else method_,
                      if c != ' ' && count == 1 then url + [c] else url,
                      if c != ' ' && count == 2 then version + [c] else version)
  {
    NextCharacter(x, c);
    hide Fields, CleanlySpaced;
  }

  /** The loop of `ParseRequest`: one pass over the request line, counting spaces. */
  method ReadLine(s: string) returns (clean: bool, method_: string, url: string, version: string)
    ensures var f := Fields(RequestLine(s));
            && (clean <==> CleanlySpaced(f))
            && (clean ==> method_ == Field(f, 0) && url == Field(f, 1) && version == Field(f, 2))
  {
    hide ReadSoFar, CleanlySpaced, Fields, Field, RequestLine;
    method_, url, version := "", "", "";
    var count, i := 0, 0;
    NothingRead();
    while i < |s| && s[i] != '\r'
      invariant 0 <= i <= |s| && ReadSoFar(s[..i], count, method_, url, version)
    {
      ReadFits(s, i, count, method_, url, version);
      if s[i] == ' ' && (i == 0 || s[i - 1] == ' ') {
        BadSpace(RequestLine(s), i);
        return false, method_, url, version;
      }
      ReadMore(s[..i], s[i], count, method_, url, version);
      NextSlice(s, i);
      if s[i] == ' ' {
        count := count + 1;
      } else {
        match count {
          case 0 => method_ := method_ + [s[i]];
          case 1 => url := url + [s[i]];
          case 2 => version := version + [s[i]];
          case _ =>
        }
      }
      i := i + 1;
    }
    AllRead(s, i, count, method_, url, version);
    clean := true;
  }

  lemma NothingRead()
    ensures ReadSoFar("", 0, "", "", "")
  {}

  lemma NextSlice(s: string, i: nat)
    requires i < |s|
    ensures s[..i + 1] == s[..i] + [s[i]]
    ensures i > 0 ==> s[..i] != "" && s[..i][i - 1] == s[i - 1]
  {}

  lemma ReadFits(s: string, i: nat, count: int, method_: string, url: string, version: string)
    requires i < |s| && s[i] != '\r' && ReadSoFar(s[..i], count, method_, url, version)
    ensures var line := RequestLine(s);
            i < |line| && line[i] == s[i] && (i > 0 ==> line[i - 1] == s[i - 1])
  {
    LineBegins(s, i);
    hide RequestLine;
  }

  lemma AllRead(s: string, i: nat, count: int, method_: string, url: string, version: string)
    requires i <= |s| && (i < |s| ==> s[i] == '\r') && ReadSoFar(s[..i], count, method_, url, version)
    ensures var f := Fields(RequestLine(s));
            CleanlySpaced(f) && method_ == Field(f, 0) && url == Field(f, 1) && version == Field(f, 2)
  {
    assert forall k :: 0 <= k < i ==> s[k] == s[..i][k];
    SpanOutIs(s, {'\r'}, i);
    hide Fields, CleanlySpaced;
  }

  /** `ParseRequest`. */
  method ParseRequest(s: string) returns (req: Request)
    ensures fresh(req)
    ensures req.valid <==> IsValid(s)
    ensures req.valid ==> Parse(s) == Some(Parsed(req.method_, req.uri, req.version, req.body, req.params))
    ensures req.originalRequest == if req.valid then s else ""
    ensures !req.valid ==> req.method_ == req.uri == req.version == req.body == "" && req.params == map[]
  {
    hide Fields, RequestLine, CleanlySpaced, IsMethod, Params, FreeOf, At;
    req := new Request(s);
    var clean, method_, url, version := ReadLine(s);
    if !clean {
      req.originalRequest := "";
      return;
    }
    if !IsMethod(method_) || version != "HTTP/1.1" {
      req.originalRequest := "";
      return;
    }
    ValidLength(s);
    ValidHasUri(s);
    if |url| < 1 {
      // The text of the request would be forgotten here, for a request that is still valid.
      assert false;
    }
    var headersEnd := Find(s, HEAD_END, 0);
    if headersEnd.Some? { AtFits(s, headersEnd.value, HEAD_END); }
    var body := if headersEnd.Some? then s[headersEnd.value + 4..] else s[3..];
    req.method_ := method_;
    req.uri := url;
    req.version := version;
    req.body := body;
    req.SetParams(body);
    req.valid := true;
  }

  lemma LineBegins(s: string, i: nat)
    requires i < |s| && FreeOf(s[..i], {'\r'}) && s[i] != '\r'
    ensures FreeOf(s[..i + 1], {'\r'})
    ensures var line := RequestLine(s);
            i < |line| && line[i] == s[i] && (i > 0 ==> line[i - 1] == s[i - 1])
  {
    assert forall k :: 0 <= k < i ==> s[k] == s[..i][k] != '\r';
  }

  // ---------- what a valid request is ----------

  /** No leading space, and no two spaces in a row. */
  ghost predicate NoBadSpace(line: string) {
    (line != "" ==> line[0] != ' ') && forall i :: 0 < i < |line| ==> !(line[i - 1] == ' ' && line[i] == ' ')
  }

  lemma NoBadSpaceSnoc(x: string, c: char)
    ensures NoBadSpace(x + [c]) <==> NoBadSpace(x) && (c == ' ' ==> x != "" && x[|x| - 1] != ' ')
  {
    var line := x + [c];
    assert forall i :: 0 <= i < |x| ==> line[i] == x[i];
    assert line[|x|] == c;
  }

  lemma CleanInFront(x: string, c: char)
    requires CleanlySpaced(Fields(x + [c]))
    ensures CleanlySpaced(Fields(x))
  {
    SplitSnoc(x, c, {' '});
    var f, g := Fields(x), Fields(x + [c]);
    assert forall i :: 0 <= i < |f| - 1 ==> g[i] == f[i];
  }

  /** Cleanly spaced means no leading and no doubled space. */
  lemma {:induction false} CleanlySpacedIff(line: string)
    ensures CleanlySpaced(Fields(line)) <==> NoBadSpace(line)
  {
    if line != "" {
      var n := |line| - 1;
      var x, c := line[..n], line[n];
      assert line == x + [c];
      CleanlySpacedIff(x);
      NoBadSpaceSnoc(x, c);
      if c == ' ' && (n == 0 || line[n - 1] == ' ') {
        BadSpace(line, n);
      } else if CleanlySpaced(Fields(x)) {
        NextCharacter(x, c);
      } else if CleanlySpaced(Fields(line)) {
        CleanInFront(x, c);
      }
    }
  }

  /** An accepted request has a uri: the check for an empty one never fires. */
  lemma ValidHasUri(s: string)
    requires Parse(s).Some?
    ensures Parse(s).value.uri != "" && FreeOf(Parse(s).value.uri, {' ', '\r'})
    ensures FreeOf(Parse(s).value.method_, {' ', '\r'}) && IsMethod(Parse(s).value.method_)
  {
    ValidLength(s);
    var line := RequestLine(s);
    FieldsFree(line);
  }

  lemma {:induction false} FieldsFree(line: string)
    requires FreeOf(line, {'\r'})
    ensures forall i :: 0 <= i < |Fields(line)| ==> FreeOf(Fields(line)[i], {' ', '\r'})
  {
    if line != "" {
      var x, c := line[..|line| - 1], line[|line| - 1];
      FieldsFree(x);
      assert Fields(line) == Extend(Fields(x), c, {' '});
    }
  }

  /** A request line of three fields. */
  lemma ThreeFields(m: string, u: string, v: string)
    requires FreeOf(m, {' '}) && FreeOf(u, {' '}) && FreeOf(v, {' '})
    ensures Fields(m + " " + u + " " + v) == [m, u, v]
  {
    var x := m + [' '] + u;
    SplitAt(x, ' ', v, {' '});
    SplitAt(m, ' ', u, {' '});
    SplitFree(m, {' '});
    SplitFree(u, {' '});
    SplitFree(v, {' '});
  }

  // ---------- which requests are valid ----------

  /** GET, in capitals or not. */
  predicate SpellsGet(m: string) {
    |m| == 3 && m[0] in {'G', 'g'} && m[1] in {'E', 'e'} && m[2] in {'T', 't'}
  }

  /** POST, in capitals or not. */
  predicate SpellsPost(m: string) {
    |m| == 4 && m[0] in {'P', 'p'} && m[1] in {'O', 'o'} && m[2] in {'S', 's'} && m[3] in {'T', 't'}
  }

  lemma LowerIs(c: char, capital: char, small: char)
    requires 'A' <= capital <= 'Z' && small == capital - 'A' + 'a'
    ensures Lower(c) == Lower(capital) <==> c in {capital, small}
  {}

  lemma MethodIsSpelled(m: string)
    ensures IsMethod(m) <==> SpellsGet(m) || SpellsPost(m)
  {
    if |m| == 3 {
      LowerIs(m[0], 'G', 'g');
      LowerIs(m[1], 'E', 'e');
      LowerIs(m[2], 'T', 't');
    }
    if |m| == 4 {
      LowerIs(m[0], 'P', 'p');
      LowerIs(m[1], 'O', 'o');
      LowerIs(m[2], 'S', 's');
      LowerIs(m[3], 'T', 't');
    }
    hide Lower;
    var get, post := "GET", "POST";
    assert get[0] == 'G' && get[1] == 'E' && get[2] == 'T';
    assert post[0] == 'P' && post[1] == 'O' && post[2] == 'S' && post[3] == 'T';
    SameLetters(m, get);
    SameLetters(m, post);
  }

  lemma SameLetters(s: string, t: string)
    ensures |t| == 3 ==> (EqualsIgnoringCase(s, t) <==>
              |s| == 3 && Lower(s[0]) == Lower(t[0]) && Lower(s[1]) == Lower(t[1]) && Lower(s[2]) == Lower(t[2]))
    ensures |t| == 4 ==> (EqualsIgnoringCase(s, t) <==>
              |s| == 4 && Lower(s[0]) == Lower(t[0]) && Lower(s[1]) == Lower(t[1]) && Lower(s[2]) == Lower(t[2])
              && Lower(s[3]) == Lower(t[3]))
  {
    hide Lower;
  }

  lemma LineOfThree(m: string, u: string, v: string, rest: string)
    requires FreeOf(m, {' ', '\r'}) && FreeOf(u, {' ', '\r'}) && FreeOf(v, {' ', '\r'})
    ensures Fields(RequestLine(m + " " + u + " " + v + "\r\n" + rest)) == [m, u, v]
  {
    hide Fields;
    var line := m + " " + u + " " + v;
    var s := line + "\r\n" + rest;
    assert FreeOf(line, {'\r'});
    assert s == line + ("\r\n" + rest);
    SpanOutIs(s, {'\r'}, |line|);
    assert s[..|line|] == line;
    ThreeFields(m, u, v);
  }

  /**
  A request line of three words is accepted exactly when the first one is GET or POST, in capitals or not,
  the second one is there, and the third one is HTTP/1.1.
  */
  lemma ValidIff(m: string, u: string, v: string, rest: string)
    requires FreeOf(m, {' ', '\r'}) && FreeOf(u, {' ', '\r'}) && FreeOf(v, {' ', '\r'})
    ensures IsValid(m + " " + u + " " + v + "\r\n" + rest)
       <==> && ((|m| == 3 && m[0] in {'G', 'g'} && m[1] in {'E', 'e'} && m[2] in {'T', 't'})
                || (|m| == 4 && m[0] in {'P', 'p'} && m[1] in {'O', 'o'} && m[2] in {'S', 's'} && m[3] in {'T', 't'}))
            && u != "" && v == "HTTP/1.1"
  {
    hide Fields, RequestLine, IsMethod, FreeOf;
    LineOfThree(m, u, v, rest);
    MethodIsSpelled(m);
    ThreeClean(m, u, v);
    hide CleanlySpaced;
  }

  lemma ThreeClean(m: string, u: string, v: string)
    ensures CleanlySpaced([m, u, v]) <==> m != "" && u != ""
  {
    var f := [m, u, v];
    assert f[0] == m && f[1] == u;
  }

  /** One more word, or one space at the end, is tolerated. */
  lemma MoreWordsIff(m: string, u: string, v: string, x: string, rest: string)
    requires FreeOf(m, {' ', '\r'}) && FreeOf(u, {' ', '\r'}) && FreeOf(v, {' ', '\r'}) && FreeOf(x, {' ', '\r'})
    ensures IsValid(m + " " + u + " " + v + " " + x + "\r\n" + rest)
       <==> (SpellsGet(m) || SpellsPost(m)) && u != "" && v == "HTTP/1.1"
  {
    hide Fields, RequestLine, IsMethod;
    var line := m + " " + u + " " + v + " " + x;
    assert line + "\r\n" + rest == line + ("\r\n" + rest);
    LineOfFour(m, u, v, x, "\r\n" + rest);
    MethodIsSpelled(m);
    FourClean(m, u, v, x);
    hide CleanlySpaced, FreeOf;
  }

  lemma LineOfFour(m: string, u: string, v: string, x: string, rest: string)
    requires FreeOf(m, {' ', '\r'}) && FreeOf(u, {' ', '\r'}) && FreeOf(v, {' ', '\r'}) && FreeOf(x, {' ', '\r'})
    requires rest != "" && rest[0] == '\r'
    ensures Fields(RequestLine(m + " " + u + " " + v + " " + x + rest)) == [m, u, v, x]
  {
    var three := m + " " + u + " " + v;
    var line := three + [' '] + x;
    assert line == m + " " + u + " " + v + " " + x;
    SpanOutIs(line + rest, {'\r'}, |line|);
    assert (line + rest)[..|line|] == line;
    ThreeFields(m, u, v);
    SplitFree(x, {' '});
    hide Text.Split;
    SplitAt(three, ' ', x, {' '});
  }

  lemma FourClean(m: string, u: string, v: string, x: string)
    ensures CleanlySpaced([m, u, v, x]) <==> m != "" && u != "" && v != ""
  {
    var f := [m, u, v, x];
    assert f[0] == m && f[1] == u && f[2] == v;
  }

  /** What is read from it: the three words as they are written, and what follows the first empty line. */
  lemma ParsesAsWritten(m: string, u: string, lines: string, body: string)
    requires FreeOf(m, {' ', '\r'}) && FreeOf(u, {' ', '\r'}) && u != "" && (SpellsGet(m) || SpellsPost(m))
    requires !Contains(m + " " + u + " " + "HTTP/1.1" + "\r\n" + lines + "\r\n\r", "\r\n\r\n")
    ensures Parse(m + " " + u + " " + "HTTP/1.1" + "\r\n" + (lines + "\r\n\r\n" + body))
         == Some(Parsed(m, u, "HTTP/1.1", body, Params(body)))
  {
    hide Fields, RequestLine, IsMethod, Params, Contains, Find;
    var v := "HTTP/1.1";
    assert FreeOf(v, {' ', '\r'});
    hide FreeOf;
    var head := m + " " + u + " " + v + "\r\n" + lines;
    var s := m + " " + u + " " + v + "\r\n" + (lines + "\r\n\r\n" + body);
    LineOfThree(m, u, v, lines + "\r\n\r\n" + body);
    ValidIff(m, u, v, lines + "\r\n\r\n" + body);
    HeadInFront(m + " " + u + " " + v + "\r\n", lines, body);
    FirstEmptyLine(head, body);
  }

  lemma HeadInFront(x: string, lines: string, body: string)
    ensures x + (lines + "\r\n\r\n" + body) == x + lines + "\r\n\r\n" + body
  {}

  lemma FirstEmptyLine(head: string, body: string)
    requires !Contains(head + "\r\n\r", "\r\n\r\n")
    ensures var s := head + "\r\n\r\n" + body;
            |s| >= 4 && BodyOf(s) == body
  {
    var s := head + "\r\n\r\n" + body;
    var short := head + "\r\n\r";
    assert s == short + ("\n" + body);
    forall j | 0 <= j < |head| ensures !At(s, j, HEAD_END) {
      assert !At(short, j, HEAD_END);
      AtInFront(short, "\n" + body, j, HEAD_END);
    }
    assert s[|head|..|head| + 4] == HEAD_END;
    FindIs(s, HEAD_END, 0, |head|);
    assert s[|head| + 4..] == body;
  }
}
