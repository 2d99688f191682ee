/**
The lexer of the configuration language: what one token of a text is, and the character-by-character
state machine that reads it from a stream with one character of put-back.
 */
module ConfigLexer {
  import opened Wrappers
  import opened Text
  import opened ConfigTree

  datatype TokenType = Start | Normal | StartBlock | EndBlock | Comment | StatementEnd | Eof | Error

  /**
  What one call of the lexer finds at the start of a text: `blank` characters of white space, then a
  body that ends at `size`, where the next call begins.
   */
  datatype Lexeme = Lexeme(kind: TokenType, blank: nat, size: nat)

  /** The first lexeme of a text. */
  function Lex(s: string): (l: Lexeme)
    ensures l.blank <= l.size <= |s|
    ensures l.kind !in {Start, Eof, Error} ==> l.blank < l.size
    ensures l.kind in {Eof, Error} ==> l.size == |s|
  {
    var b := SpanIn(s, BLANKS);
    var t := LexBody(s[b..]);
    Lexeme(t.0, b, b + t.1)
  }

  /** The kind and length of the lexeme at the start of a text that does not begin with a blank. */
  function LexBody(t: string): (r: (TokenType, nat))
    ensures r.1 <= |t|
    ensures r.0 !in {Eof, Error} ==> 0 < r.1
    ensures r.0 in {Eof, Error} ==> r.1 == |t|
  {
    if t == "" then (Eof, 0)
    else if t[0] == '{' then (StartBlock, 1)
    else if t[0] == '}' then (EndBlock, 1)
    else if t[0] == ';' then (StatementEnd, 1)
    else if t[0] == '#' then
      var n := SpanOut(t, {'\n', '\r'});
      if n < |t| then (Comment, n + 1) else (Eof, |t|)
    else if t[0] == '"' || t[0] == '\'' then
      var n := 1 + SpanOut(t[1..], {t[0]});
      if n < |t| then (Normal, n + 1) else (Error, |t|)
    else
      var n := 1 + SpanOut(t[1..], WORD_ENDS);
      if n < |t| then (Normal, n) else (Eof, |t|)
  }

  /** The text of a token, without the white space in front of it. */
  function Body(s: string): string {
    s[Lex(s).blank..Lex(s).size]
  }

  /** What the lexer leaves for its next call. */
  function Rest(s: string): string {
    s[Lex(s).size..]
  }

  // ---------- the stream ----------

  /** The part of `std::istream` the lexer uses. */
  class InputStream {
    const text: string
    var pos: nat
    var good: bool

    constructor (text: string)
      ensures this.text == text && pos == 0 && good
    {
      this.text := text;
      pos := 0;
      good := true;
    }

    ghost predicate Valid()
      reads this
    {
      pos <= |text| && (!good ==> pos == |text|)
    }

    ghost function Remaining(): string
      requires Valid()
      reads this
    {
      text[pos..]
    }

    /** The next character; reading past the end ends the good state. */
    method Get() returns (c: char)
      requires Valid() && good
      modifies this
      ensures Valid()
      ensures good <==> old(pos) < |text|
      ensures good ==> pos == old(pos) + 1 && c == text[old(pos)]
      ensures !good ==> pos == old(pos)
    {
      if pos < |text| {
        c := text[pos];
        pos := pos + 1;
      } else {
        c := 0 as char;
        good := false;
      }
    }

    /** Puts the last character back. */
    method Unget()
      requires Valid() && good && pos > 0
      modifies this
      ensures Valid() && good && pos == old(pos) - 1
    {
      pos := pos - 1;
    }
  }

  datatype LexerState = InitialWhitespace | SingleQuote | DoubleQuote | InComment | InWord

  /** Where the lexer stands after reading `t`, the part of a body read so far, in a given state. */
  ghost predicate Reading(state: LexerState, t: string) {
    match state
    case InitialWhitespace => t == ""
    case SingleQuote => t != "" && t[0] == '\'' && FreeOf(t[1..], {'\''})
    case DoubleQuote => t != "" && t[0] == '"' && FreeOf(t[1..], {'"'})
    case InComment => t != "" && t[0] == '#' && FreeOf(t, {'\n', '\r'})
    case InWord => t != "" && t[0] !in WORD_BARRED && FreeOf(t[1..], WORD_ENDS)
  }

  /**
  What the lexer does with a character: pass over it, keep it and go on in some state, or return,
  after keeping the character (`keep`), putting it back (`putBack`) or dropping it (neither).
  */
  datatype Action = Skip | Keep(next: LexerState) | Return(kind: TokenType, keep: bool, putBack: bool)

  /** The two nested switches of the lexer. */
  function Act(state: LexerState, c: char): Action {
    match state
    case InitialWhitespace =>
      if c == '{' then Return(StartBlock, true, false)
      else if c == '}' then Return(EndBlock, true, false)
      else if c == '#' then Keep(InComment)
      else if c == '"' then Keep(DoubleQuote)
      else if c == '\'' then Keep(SingleQuote)
      else if c == ';' then Return(StatementEnd, true, false)
      else if c == ' ' || c == '\t' || c == '\n' || c == '\r' then Skip
      else Keep(InWord)
    case SingleQuote => if c == '\'' then Return(Normal, true, false) else Keep(SingleQuote)
    case DoubleQuote => if c == '"' then Return(Normal, true, false) else Keep(DoubleQuote)
    case InComment => if c == '\n' || c == '\r' then Return(Comment, false, false) else Keep(InComment)
    case InWord =>
      if c == ' ' || c == '\t' || c == '\n' || c == ';' || c == '{' || c == '}' then Return(Normal, false, true)
      else Keep(InWord)
  }

  /** Each action is right about the token that begins with the characters read so far. */
  lemma ActReads(state: LexerState, t: string, c: char, u: string)
    requires Reading(state, t)
    ensures var a := Act(state, c);
            && (a.Skip? <==> state == InitialWhitespace && c in BLANKS)
            && (a.Keep? ==> a.next != InitialWhitespace && Reading(a.next, t + [c]))
            && (a.Return? ==> LexBody(t + [c] + u) == (a.kind, |t| + if a.putBack then 0 else 1))
            && (a.Return? ==> (a.keep <==> !a.putBack && a.kind != Comment))
            && (a.Return? ==> a.kind !in {Eof, Error})
            && (a.Return? && a.putBack ==> t != "" && a.kind == Normal)
  {
    var s := t + [c] + u;
    if state != InitialWhitespace {
      assert s[1..] == t[1..] + [c] + u && (t + [c])[1..] == t[1..] + [c];
      if Act(state, c).Return? { ReturnReads(state, t, c, u); }
    }
  }

  lemma ReturnReads(state: LexerState, t: string, c: char, u: string)
    requires state != InitialWhitespace && Reading(state, t) && Act(state, c).Return?
    ensures var a := Act(state, c);
            LexBody(t + [c] + u) == (a.kind, |t| + if a.putBack then 0 else 1)
  {
    var s := t + [c] + u;
    assert s[1..] == t[1..] + [c] + u;
    match state
    case SingleQuote => SpanOutIs(s[1..], {'\''}, |t| - 1);
    case DoubleQuote => SpanOutIs(s[1..], {'"'}, |t| - 1);
    case InComment => SpanOutIs(s, {'\n', '\r'}, |t|);
    case InWord => SpanOutIs(s[1..], WORD_ENDS, |t| - 1);
  }

  /** What the end of the text makes of a body that is not finished. */
  lemma LexEnd(state: LexerState, t: string)
    requires Reading(state, t)
    ensures LexBody(t) == (if state in {SingleQuote, DoubleQuote} then Error else Eof, |t|)
  {
    if t != "" {
      match state
      case SingleQuote => SpanOutIs(t[1..], {'\''}, |t| - 1);
      case DoubleQuote => SpanOutIs(t[1..], {'"'}, |t| - 1);
      case InComment => SpanOutIs(t, {'\n', '\r'}, |t|);
      case InWord => SpanOutIs(t[1..], WORD_ENDS, |t| - 1);
    }
  }

  /** One call of the lexer on `s` that consumes `used` characters and reports `kind` and `value`. */
  ghost predicate Reports(s: string, kind: TokenType, value: string, used: nat) {
    && kind == Lex(s).kind
    && used == Lex(s).size
    && (kind in {Normal, StartBlock, EndBlock, StatementEnd} ==> value == Body(s))
    && (kind == Comment ==> value == Body(s)[..|Body(s)| - 1])
  }

  lemma ReportsFrom(s: string, b: nat, kind: TokenType, n: nat, value: string)
    requires b <= |s| && (forall i :: 0 <= i < b ==> s[i] in BLANKS)
    requires b < |s| ==> s[b] !in BLANKS
    requires LexBody(s[b..]) == (kind, n) && b + n <= |s|
    requires kind == Comment ==> value == s[b..][..n - 1]
    requires kind !in {Comment, Eof, Error} ==> value == s[b..][..n]
    ensures Reports(s, kind, value, b + n)
  {
    SpanInIs(s, BLANKS, b);
    assert s[b..b + n] == s[b..][..n];
    assert kind == Comment ==> s[b..][..n][..n - 1] == s[b..][..n - 1];
  }

  /** In the middle of a call on `s`: `blank` blanks passed over, `value` read, `rest` still to come. */
  ghost predicate Midway(s: string, blank: nat, state: LexerState, value: string, rest: string) {
    && blank <= |s|
    && (forall i :: 0 <= i < blank ==> s[i] in BLANKS)
    && s[blank..] == value + rest
    && Reading(state, value)
    && (state == InitialWhitespace <==> value == "")
    && (value != "" ==> value[0] !in BLANKS)
  }

  lemma StartMidway(s: string)
    ensures Midway(s, 0, InitialWhitespace, "", s)
  {}

  /** One character read in the middle of a call. */
  lemma ActMidway(s: string, blank: nat, state: LexerState, value: string, c: char, u: string)
    requires Midway(s, blank, state, value, [c] + u)
    ensures match Act(state, c)
            case Skip => Midway(s, blank + 1, state, value, u)
            case Keep(next) => Midway(s, blank, next, value + [c], u)
            case Return(k, keep, putBack) =>
              && k !in {Eof, Error}
              && Reports(s, k, if keep then value + [c] else value, |s| - |u| - if putBack then 1 else 0)
  {
    hide LexBody, Reading, Reports, Act;
    assert value + ([c] + u) == value + [c] + u;
    ActReads(state, value, c, u);
    match Act(state, c)
    case Skip => assert s[blank] == c;
    case Keep(next) =>
    case Return(k, keep, putBack) =>
      var n := |value| + if putBack then 0 else 1;
      assert s[blank..][..|value|] == value && s[blank..][..|value| + 1] == value + [c];
      ReportsFrom(s, blank, k, n, if keep then value + [c] else value);
  }

  lemma EndMidway(s: string, blank: nat, state: LexerState, value: string)
    requires Midway(s, blank, state, value, "")
    ensures Reports(s, if state in {SingleQuote, DoubleQuote} then Error else Eof, value, |s|)
  {
    hide LexBody, Reading, Reports;
    assert value + "" == value;
    LexEnd(state, value);
    ReportsFrom(s, blank, if state in {SingleQuote, DoubleQuote} then Error else Eof, |value|, value);
  }

  /** Reads one token; `value` starts empty, as every call of the parser has it. */
  method ParseToken(input: InputStream) returns (kind: TokenType, value: string)
    requires input.Valid()
    modifies input
    ensures input.Valid() && input.pos >= old(input.pos)
    ensures Reports(old(input.Remaining()), kind, value, input.pos - old(input.pos))
    ensures kind in {Eof, Error} || input.good
  {
    hide Midway, Reports, Act;
    ghost var s, blank := input.Remaining(), 0;
    value := "";
    var state := InitialWhitespace;
    StartMidway(s);
    while input.good
      invariant input.Valid() && old(input.pos) <= input.pos
      invariant Midway(s, blank, state, value, input.Remaining())
      decreases |input.text| - input.pos, input.good
    {
      ghost var before := input.Remaining();
      var c := input.Get();
      if !input.good { break; }
      ghost var u := input.Remaining();
      assert before == [c] + u;
      ActMidway(s, blank, state, value, c, u);
      match Act(state, c) {
        case Skip =>
          blank := blank + 1;
        case Keep(next) =>
          value, state := value + [c], next;
        case Return(k, keep, putBack) =>
          if putBack { input.Unget(); }
          return k, if keep then value + [c] else value;
      }
    }
    EndMidway(s, blank, state, value);
    kind := if state == SingleQuote || state == DoubleQuote then Error else Eof;
  }
}
