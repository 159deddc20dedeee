/** Token trees, scan outcomes and errors shared by both tokenizers and the splitter. */
module Tokens {

  /** A token is a verbatim atom of the input, or a bracket group whose first and
      last items are the opening bracket and its mate. */
  datatype Token = Atom(text: string) | Group(items: seq<Token>)

  /** The empty atom that `token()` returns at a statement boundary (delimiter or end of input). */
  const EndMarker: Token := Atom("")

  /** Why scanning stopped; each tag stands for one message the tokenizers raise. */
  datatype Reason =
    | ExpectedSqlToken          // no token rule matches at the cursor
    | ExpectedBlockCommentEnd   // `/*` without a later `*/`
    | ExpectedDollarQuoteEnd    // `$tag$` without a second `$tag$`
    | ExpectedGroupEnd          // a statement boundary inside a bracket group
    | ExpectedEndQuote          // a quoted literal that runs to the end of input
    | EscapeAtEnd               // a backslash as the last input character inside a quote
    | ExpectedDelimiter         // `DELIMITER` without delimiter text on its line

  /** A hard failure: the cursor offset at the moment of failing and the reason. */
  datatype Error = Error(offset: nat, reason: Reason)

  /** What a scanner yields at a position: no match (the cursor is left where it was),
      a value together with the cursor after it, or a hard failure. */
  datatype Scan<+T> = NoMatch | Match(value: T, next: nat) | Failed(error: Error)

  /** The outcome of a whole tokenization. */
  datatype Result<+T> = Ok(value: T) | Err(error: Error)

  datatype Option<+T> = None | Some(value: T)

  /** Turns a scanned lexeme into a scanned atom. */
  function AsAtom(r: Scan<string>): Scan<Token> {
    match r
    case NoMatch => NoMatch
    case Match(text, next) => Match(Atom(text), next)
    case Failed(e) => Failed(e)
  }

  /** PHP truthiness of a string: `""` and `"0"` are false. */
  predicate TruthyText(text: string) {
    text != "" && text != "0"
  }

  /** PHP truthiness of a value returned by `token()`: a falsy string, or an empty array, is false. */
  predicate Truthy(t: Token) {
    match t
    case Atom(text) => TruthyText(text)
    case Group(items) => items != []
  }

  predicate IsOpener(c: char) {
    c == '(' || c == '{' || c == '['
  }

  /** The closing bracket `grouped()` requires for an opening one. */
  function Mate(c: char): char
    requires IsOpener(c)
  {
    if c == '(' then ')' else if c == '{' then '}' else ']'
  }

  /** Every atom is non-empty, and every group starts with an opening bracket atom and
      ends with the atom of its mate, at every depth. */
  ghost predicate WellFormed(t: Token) {
    match t
    case Atom(text) => text != ""
    case Group(items) =>
      && |items| >= 2
      && items[0].Atom? && |items[0].text| == 1 && IsOpener(items[0].text[0])
      && items[|items| - 1] == Atom([Mate(items[0].text[0])])
      && forall i | 0 <= i < |items| :: WellFormed(items[i])
  }

  /** Depth-first concatenation of the atoms of a token sequence. */
  function Flatten(ts: seq<Token>): string
    decreases ts
  {
    if ts == [] then "" else Flatten(ts[..|ts| - 1]) + FlattenToken(ts[|ts| - 1])
  }

  function FlattenToken(t: Token): string
    decreases t
  {
    match t
    case Atom(text) => text
    case Group(items) => Flatten(items)
  }

  /** A token scanned at `pos` is the input it covers, verbatim: its atoms, joined,
      are the text from `pos` up to where the scan stopped. */
  ghost predicate Verbatim(s: string, pos: nat, r: Scan<Token>) {
    r.Match? && pos <= r.next <= |s| ==> FlattenToken(r.value) == s[pos..r.next]
  }

  /** Appending a token appends its text. */
  lemma {:induction false} FlattenAppend(ts: seq<Token>, t: Token)
    ensures Flatten(ts + [t]) == Flatten(ts) + FlattenToken(t)
  {
    assert (ts + [t])[..|ts|] == ts;
  }

  /** A token that spells `s[p..q]`, appended to tokens that spell some text, spells that
      text followed by the input from `p` on. */
  lemma {:induction false} AppendSpelled(ts: seq<Token>, t: Token, s: string, p: nat, q: nat, e: nat)
    requires p <= q <= e <= |s| && FlattenToken(t) == s[p..q]
    ensures Flatten(ts + [t]) + s[q..e] == Flatten(ts) + s[p..e]
  {
    FlattenAppend(ts, t);
    assert s[p..q] + s[q..e] == s[p..e];
  }

  /** A token appended to tokens moves its own text from the front of what follows them. */
  lemma {:induction false} AppendText(ts: seq<Token>, t: Token, rest: string, whole: string)
    requires whole == FlattenToken(t) + rest
    ensures Flatten(ts + [t]) + rest == Flatten(ts) + whole
  {
    FlattenAppend(ts, t);
  }

  /** A suffix of a sequence is its first element followed by the rest. */
  lemma SliceFront<T>(xs: seq<T>, k: nat)
    requires k < |xs|
    ensures xs[k..] == [xs[k]] + xs[k + 1..]
  {
  }
}
