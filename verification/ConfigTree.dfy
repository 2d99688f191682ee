/** The configuration tree and its printed form. */
module ConfigTree {
  import opened Text

  /** A statement without a child block, and a statement with one. */
  datatype Statement = Line(tokens: seq<string>) | Block(tokens: seq<string>, body: Config)

  type Config = seq<Statement>

  const BLANKS: set<char> := {' ', '\t', '\n', '\r'}
  /** What ends a bare word: no carriage return among them. */
  const WORD_ENDS: set<char> := {' ', '\t', '\n', ';', '{', '}'}
  /** What cannot begin a bare word. */
  const WORD_BARRED: set<char> := {'{', '}', '#', '"', '\'', ';', ' ', '\t', '\n', '\r'}

  predicate IsBareWord(t: string) {
    t != "" && t[0] !in WORD_BARRED && forall i :: 1 <= i < |t| ==> t[i] !in WORD_ENDS
  }

  /** A quoted string, quotes included: the closing quote is the first one after the opening quote. */
  predicate IsQuoted(t: string) {
    && |t| >= 2
    && t[0] in {'"', '\''}
    && t[|t| - 1] == t[0]
    && forall i :: 1 <= i < |t| - 1 ==> t[i] != t[0]
  }

  predicate IsLexeme(t: string) { IsBareWord(t) || IsQuoted(t) }

  /** What the grammar asks of a statement: at least one word, and no empty block. */
  ghost predicate WellFormedStatement(s: Statement) {
    s.tokens != [] && (s.Block? ==> s.body != [] && WellFormed(s.body))
  }

  ghost predicate WellFormed(c: Config) {
    forall i :: 0 <= i < |c| ==> WellFormedStatement(c[i])
  }

  /** Every word of the tree is one lexeme. */
  ghost predicate LexicalStatement(s: Statement) {
    && (forall i :: 0 <= i < |s.tokens| ==> IsLexeme(s.tokens[i]))
    && (s.Block? ==> Lexical(s.body))
  }

  ghost predicate Lexical(c: Config) {
    forall i :: 0 <= i < |c| ==> LexicalStatement(c[i])
  }

  ghost predicate InNormalForm(c: Config) { WellFormed(c) && Lexical(c) }

  // ---------- printing ----------

  function Indent(depth: int): string {
    if depth <= 0 then "" else Indent(depth - 1) + "  "
  }

  function PrintStatement(s: Statement, depth: int): string {
    Indent(depth) + Join(s.tokens, " ") +
    (match s
     case Line(_) => ";"
     case Block(_, body) => " {\n" + Print(body, depth + 1) + Indent(depth) + "}")
    + "\n"
  }

  function Print(c: Config, depth: int): string {
    if c == [] then "" else PrintStatement(c[0], depth) + Print(c[1..], depth)
  }
}
