/** The statement tokenizer with a changeable delimiter (`Kodus\SQL\Tokenizer`): a recursive
    descent over the input that yields, per statement, a tree of verbatim tokens. The
    functions below state what each parsing method yields from a position; the class at
    the end runs the same steps on a cursor and is proved to agree with them. */
module KodusSQL {
  import opened Tokens
  import opened Lexer
  import opened Cursors

  /** `[\*,.+-\/=;<>]`; the range `+-\/` spans `+ , - . /`. */
  const Operators: set<char> := {'*', '+', ',', '-', '.', '/', '=', ';', '<', '>'}

  /** The delimiter a tokenizer starts with. */
  const InitialDelimiter: string := ";"

  function Lower(c: char): char {
    if 'A' <= c <= 'Z' then (c as int + 32) as char else c
  }

  /** `preg_match('/^delimiter$/i', $token)` on a token `token()` returned as a string. */
  predicate IsDirective(t: Token) {
    t.Atom? && |t.text| == 9 && forall i | 0 <= i < 9 :: Lower(t.text[i]) == "delimiter"[i]
  }

  /** The rules `token()` tries before a bracket group: a word, white space, a comment, an
      operator, an `@` variable, a quoted literal. */
  function LeadingAtom(s: string, pos: nat): (r: Scan<string>)
    requires pos <= |s|
    ensures Lexeme(s, pos, r)
    ensures r.Failed? ==> pos < r.error.offset <= |s| && r.error.reason != ExpectedSqlToken && r.error.reason != ExpectedGroupEnd
  {
    var word := Run(s, pos, IsWordChar);
    if word.Match? then word else
    var space := Run(s, pos, IsSpace);
    if space.Match? then space else
    var comment := Comment(s, pos);
    if !comment.NoMatch? then comment else
    LeadingSymbol(s, pos)
  }

  /** The rules of `token()` after the comment: an operator, an `@` variable, a quoted literal. */
  function LeadingSymbol(s: string, pos: nat): (r: Scan<string>)
    requires pos <= |s|
    ensures Lexeme(s, pos, r)
    ensures r.Failed? ==> pos < r.error.offset <= |s| && r.error.reason != ExpectedSqlToken && r.error.reason != ExpectedGroupEnd
  {
    var operator := OneOf(s, pos, Operators);
    if operator.Match? then operator else
    var variable := Prefixed(s, pos, '@');
    if variable.Match? then variable else
    Quoted(s, pos)
  }

  /** `token()` at `pos` with delimiter `d`: the end marker at the delimiter or at the end
      of input, else the first rule that matches. A delimiter that PHP reads as false (`"0"`)
      is consumed and the remaining rules are tried after it. */
  function TokenAt(s: string, pos: nat, d: string): (r: Scan<Token>)
    requires pos <= |s| && d != ""
    ensures !r.NoMatch?
    ensures r.Match? ==> pos <= r.next <= |s|
    ensures r.Match? && r.value != EndMarker ==> pos < r.next && WellFormed(r.value)
    ensures r.Match? && r.value == EndMarker ==>
      r.next == |s| || (TruthyText(d) && StartsWith(s, pos, d) && r.next == pos + |d|)
    ensures r.Match? && r.value != EndMarker && TruthyText(d) && NoRepeatedTag(s) ==> Verbatim(s, pos, r)
    decreases |s| - pos, 1
  {
    var atDelimiter := Literal(s, pos, d);
    if atDelimiter.Match? && TruthyText(d) then Match(EndMarker, atDelimiter.next)
    else
      var p := if atDelimiter.Match? then atDelimiter.next else pos;
      var lead := LeadingAtom(s, p);
      if !lead.NoMatch? then AsAtom(lead) else
      var group := GroupAt(s, p, d);
      if !group.NoMatch? then group else
      var trail := TrailingAtom(s, p);
      if !trail.NoMatch? then AsAtom(trail) else
      if p == |s| then Match(EndMarker, p)
      else Failed(Error(p, ExpectedSqlToken))
  }

  /** `grouped()` at `pos`: nothing unless an opening bracket is there, else the bracket
      group through its mate. */
  function GroupAt(s: string, pos: nat, d: string): (r: Scan<Token>)
    requires pos <= |s| && d != ""
    ensures r.NoMatch? <==> !(pos < |s| && IsOpener(s[pos]))
    ensures r.Match? ==> pos < r.next <= |s| && r.value.Group? && WellFormed(r.value)
    ensures TruthyText(d) && NoRepeatedTag(s) ==> Verbatim(s, pos, r)
    decreases |s| - pos, 0
  {
    if pos < |s| && IsOpener(s[pos]) then
      GroupRest(s, pos, pos + 1, d, [Atom([s[pos]])])
    else NoMatch
  }

  /** The loop of `grouped()`: `items` were collected from `start` up to `p`. The closing
      bracket is looked for before each token; the end marker inside a group fails. */
  function GroupRest(s: string, start: nat, p: nat, d: string, items: seq<Token>): (r: Scan<Token>)
    requires start < p <= |s| && d != "" && IsOpener(s[start])
    requires |items| >= 1 && items[0] == Atom([s[start]])
    requires forall i | 0 <= i < |items| :: WellFormed(items[i])
    requires TruthyText(d) && NoRepeatedTag(s) ==> Flatten(items) == s[start..p]
    ensures !r.NoMatch?
    ensures r.Match? ==> p < r.next <= |s| && r.value.Group? && WellFormed(r.value)
    ensures r.Match? ==> r.value.items[0] == Atom([s[start]])
    ensures TruthyText(d) && NoRepeatedTag(s) ==> Verbatim(s, start, r)
    decreases |s| - p, 2
  {
    var closing := Mate(s[start]);
    if StartsWith(s, p, [closing]) then
      FlattenAppend(items, Atom([closing]));
      SliceJoin(s, start, p, p + 1);
      Match(Group(items + [Atom([closing])]), p + 1)
    else
      match TokenAt(s, p, d)
      case Failed(e) => Failed(e)
      case Match(t, q) =>
        if t == EndMarker then Failed(Error(q, ExpectedGroupEnd))
        else
          FlattenAppend(items, t);
          SliceJoin(s, start, p, q);
          GroupRest(s, start, q, d, items + [t])
  }

  /** A token that may stand in a returned statement: not the end marker, not the
      `DELIMITER` word, and well formed. */
  ghost predicate Kept(t: Token) {
    t != EndMarker && !IsDirective(t) && WellFormed(t)
  }

  /** A statement `statements()` keeps: non-empty, and every token in it kept. */
  ghost predicate KeptStatement(ts: seq<Token>) {
    ts != [] && forall j | 0 <= j < |ts| :: Kept(ts[j])
  }

  /** What `statement()` returns, together with the delimiter in force after it. */
  datatype Statement = Statement(tokens: seq<Token>, delimiter: string)

  /** `statement()` at `pos` with delimiter `d`: no statement (`null`) when only white space
      is left, else the tokens up to the end marker. */
  function StatementAt(s: string, pos: nat, d: string): (r: Scan<Statement>)
    requires pos <= |s| && d != ""
    ensures r.NoMatch? <==> RunEnd(s, pos, IsSpace) == |s|
    ensures r.Match? ==> pos < r.next <= |s| && r.value.delimiter != ""
    ensures r.Match? ==> forall i | 0 <= i < |r.value.tokens| :: Kept(r.value.tokens[i])
  {
    var p := RunEnd(s, pos, IsSpace);
    if p == |s| then NoMatch else StatementRest(s, p, d, [])
  }

  /** The loop of `statement()` at `p`, with `tokens` collected so far. A `DELIMITER` word
      takes the rest of its line, trimmed, as the new delimiter and is left out. */
  function StatementRest(s: string, p: nat, d: string, tokens: seq<Token>): (r: Scan<Statement>)
    requires p <= |s| && d != ""
    requires forall i | 0 <= i < |tokens| :: Kept(tokens[i])
    ensures !r.NoMatch?
    ensures r.Match? ==> p <= r.next <= |s| && r.value.delimiter != ""
    ensures r.Match? && p < |s| ==> p < r.next
    ensures r.Match? ==> forall i | 0 <= i < |r.value.tokens| :: Kept(r.value.tokens[i])
    decreases |s| - p
  {
    match TokenAt(s, p, d)
    case Failed(e) => Failed(e)
    case Match(t, q) =>
      if t == EndMarker then Match(Statement(tokens, d), q)
      else if IsDirective(t) then
        var b := RunEnd(s, q, IsBlank);
        match ThroughLineBreak(s, b)
        case None => Failed(Error(b, ExpectedDelimiter))
        case Some(e) =>
          var delimiter := Trim(s[b..e]);
          if delimiter == "" then Failed(Error(e, ExpectedDelimiter))
          else StatementRest(s, e, delimiter, tokens)
      else StatementRest(s, q, d, tokens + [t])
  }

  /** `statements()` from `pos`: statements are collected until `statement()` yields none
      or an empty one. */
  function StatementsFrom(s: string, pos: nat, d: string, acc: seq<seq<Token>>): (r: Result<seq<seq<Token>>>)
    requires pos <= |s| && d != ""
    requires forall i | 0 <= i < |acc| :: KeptStatement(acc[i])
    ensures r.Ok? ==> |acc| <= |r.value| && forall i | 0 <= i < |acc| :: r.value[i] == acc[i]
    ensures r.Ok? ==> forall i | 0 <= i < |r.value| :: KeptStatement(r.value[i])
    decreases |s| - pos
  {
    match StatementAt(s, pos, d)
    case NoMatch => Ok(acc)
    case Failed(e) => Err(e)
    case Match(statement, next) =>
      if statement.tokens == [] then Ok(acc)
      else StatementsFrom(s, next, statement.delimiter, acc + [statement.tokens])
  }

  /** `Tokenizer::tokenize($input)`. */
  function Tokenization(s: string): (r: Result<seq<seq<Token>>>)
    ensures r.Ok? ==> forall i | 0 <= i < |r.value| :: KeptStatement(r.value[i])
  {
    StatementsFrom(s, 0, InitialDelimiter, [])
  }

  /** Rule 1 of `token()`: at the delimiter the statement ends. */
  lemma DelimiterEndsStatement(s: string, pos: nat, d: string)
    requires pos <= |s| && TruthyText(d) && StartsWith(s, pos, d)
    ensures TokenAt(s, pos, d) == Match(EndMarker, pos + |d|)
  {
  }

  /** Away from the delimiter, a word is an atom. */
  lemma WordToken(s: string, pos: nat, d: string)
    requires pos < |s| && TruthyText(d) && !StartsWith(s, pos, d) && IsWordChar(s[pos])
    ensures var e := RunEnd(s, pos, IsWordChar); TokenAt(s, pos, d) == Match(Atom(s[pos..e]), e)
  {
  }

  /** Once the delimiter is something else (after `DELIMITER $$`, say), a `;` is an
      ordinary operator atom. */
  lemma SemicolonIsAtom(s: string, pos: nat, d: string)
    requires pos < |s| && s[pos] == ';' && TruthyText(d) && !StartsWith(s, pos, d)
    ensures TokenAt(s, pos, d) == Match(Atom(";"), pos + 1)
  {
    CommentNone(s, pos);
  }

  /** The delimiter inside a bracket group, before its closing bracket, fails after the delimiter. */
  lemma {:induction false} DelimiterInGroupFails(s: string, start: nat, p: nat, d: string, items: seq<Token>)
    requires start < p <= |s| && IsOpener(s[start])
    requires |items| >= 1 && items[0] == Atom([s[start]])
    requires forall i | 0 <= i < |items| :: WellFormed(items[i])
    requires TruthyText(d) && NoRepeatedTag(s) ==> Flatten(items) == s[start..p]
    requires TruthyText(d) && StartsWith(s, p, d) && !StartsWith(s, p, [Mate(s[start])])
    ensures GroupRest(s, start, p, d, items) == Failed(Error(p + |d|, ExpectedGroupEnd))
  {
    DelimiterEndsStatement(s, p, d);
  }

  /** A `DELIMITER` word in a statement: the rest of its line, trimmed, becomes the
      delimiter and the statement goes on after the line; no line break, or nothing but
      blanks before it, fails. */
  lemma {:induction false} DirectiveSetsDelimiter(s: string, p: nat, d: string, tokens: seq<Token>)
    requires p <= |s| && d != ""
    requires forall i | 0 <= i < |tokens| :: Kept(tokens[i])
    requires TokenAt(s, p, d).Match? && IsDirective(TokenAt(s, p, d).value)
    ensures var b := RunEnd(s, TokenAt(s, p, d).next, IsBlank);
      var line := ThroughLineBreak(s, b);
      var rest := StatementRest(s, p, d, tokens);
      && (line.None? ==> rest == Failed(Error(b, ExpectedDelimiter)))
      && (line.Some? && Trim(s[b..line.value]) == [] ==> rest == Failed(Error(line.value, ExpectedDelimiter)))
      && (line.Some? && Trim(s[b..line.value]) != [] ==> rest == StatementRest(s, line.value, Trim(s[b..line.value]), tokens))
  {
  }

  /** No rule of `token()` after the delimiter can start at `pos`: not a word or white
      space character, not an operator (which covers the comment openers and `;`), not a
      quote or an opening bracket, no `@` or `:` before a word character and no `$\w*$` tag. */
  ghost predicate StartsNoToken(s: string, pos: nat)
    requires pos < |s|
  {
    var c := s[pos];
    && !IsWordChar(c) && !IsSpace(c) && c !in Operators && c !in QuoteChars && !IsOpener(c)
    && !((c == '@' || c == ':') && pos + 1 < |s| && IsWordChar(s[pos + 1]))
    && OpeningTag(s, pos).None?
  }

  /** What a failure tells about the input: "expected SQL token" stands at a character that
      starts no rule, and "expected token or group end" comes at the end of input or right
      after the delimiter `d`. */
  ghost predicate FailureCause(s: string, d: string, e: Error) {
    && (e.reason == ExpectedSqlToken ==> e.offset < |s| && StartsNoToken(s, e.offset))
    && (e.reason == ExpectedGroupEnd ==> e.offset == |s| || (|d| <= e.offset <= |s| && s[e.offset - |d|..e.offset] == d))
  }

  /** No rule before `grouped()` matches a character that starts none of them. */
  lemma LeadingNone(s: string, pos: nat)
    requires pos < |s| && StartsNoToken(s, pos)
    ensures LeadingAtom(s, pos).NoMatch?
  {
    CommentNone(s, pos);
  }

  /** Where and why `token()` fails: never before the cursor, and for one of the causes above. */
  lemma {:induction false} TokenFailure(s: string, pos: nat, d: string)
    requires pos <= |s| && d != ""
    ensures var r := TokenAt(s, pos, d); r.Failed? ==> pos <= r.error.offset <= |s| && FailureCause(s, d, r.error)
    decreases |s| - pos, 1
  {
    var atDelimiter := Literal(s, pos, d);
    var p := if atDelimiter.Match? then atDelimiter.next else pos;
    if !(atDelimiter.Match? && TruthyText(d)) && LeadingAtom(s, p).NoMatch? {
      GroupFailure(s, p, d);
    }
  }

  /** Where and why `grouped()` fails: after the opening bracket, for one of the causes above. */
  lemma {:induction false} GroupFailure(s: string, pos: nat, d: string)
    requires pos <= |s| && d != ""
    ensures var r := GroupAt(s, pos, d); r.Failed? ==> pos < r.error.offset <= |s| && FailureCause(s, d, r.error)
    decreases |s| - pos, 0
  {
    if pos < |s| && IsOpener(s[pos]) {
      GroupRestFailure(s, pos, pos + 1, d, [Atom([s[pos]])]);
    }
  }

  /** Where and why the loop of `grouped()` fails: at or after `p`, for one of the causes above. */
  lemma {:induction false} GroupRestFailure(s: string, start: nat, p: nat, d: string, items: seq<Token>)
    requires start < p <= |s| && d != "" && IsOpener(s[start])
    requires |items| >= 1 && items[0] == Atom([s[start]])
    requires forall i | 0 <= i < |items| :: WellFormed(items[i])
    requires TruthyText(d) && NoRepeatedTag(s) ==> Flatten(items) == s[start..p]
    ensures var r := GroupRest(s, start, p, d, items); r.Failed? ==> p <= r.error.offset <= |s| && FailureCause(s, d, r.error)
    decreases |s| - p, 2
  {
    if !StartsWith(s, p, [Mate(s[start])]) {
      var token := TokenAt(s, p, d);
      if token.Failed? {
        TokenFailure(s, p, d);
      } else if token.value == EndMarker {
        EndMarkerCause(s, p, d);
      } else {
        var t, q := token.value, token.next;
        FlattenAppend(items, t);
        SliceJoin(s, start, p, q);
        GroupRestFailure(s, start, q, d, items + [t]);
      }
    }
  }

  /** The end marker inside a group: the failure it causes comes at the end of input or
      right after the delimiter. */
  lemma EndMarkerCause(s: string, p: nat, d: string)
    requires p <= |s| && d != "" && TokenAt(s, p, d).Match? && TokenAt(s, p, d).value == EndMarker
    ensures TokenAt(s, p, d).next <= |s| && FailureCause(s, d, Error(TokenAt(s, p, d).next, ExpectedGroupEnd))
  {
  }

  /** "Expected SQL token" at the cursor itself happens exactly at a character, not at the
      delimiter, that starts no rule. */
  lemma UnknownCharacterFails(s: string, pos: nat, d: string)
    requires pos <= |s| && d != ""
    ensures TokenAt(s, pos, d) == Failed(Error(pos, ExpectedSqlToken)) <==> pos < |s| && StartsNoToken(s, pos) && !StartsWith(s, pos, d)
  {
    TokenFailure(s, pos, d);
    if pos < |s| && StartsNoToken(s, pos) && !StartsWith(s, pos, d) {
      LeadingNone(s, pos);
    }
    if StartsWith(s, pos, d) && !TruthyText(d) {
      assert s[pos] == s[pos..pos + |d|][0] == '0';
    }
  }

  /** A `)`, `]`, `}` with no group open, or a `!`, `#`, `?`, lone `@`, lone `:` or `$` that
      opens no tag, matches no rule away from the delimiter. */
  lemma StrayCharacterFails(s: string, pos: nat, d: string)
    requires pos < |s| && d != "" && !StartsWith(s, pos, d)
    requires || s[pos] in {')', ']', '}', '!', '#', '?'}
             || ((s[pos] == '@' || s[pos] == ':') && (pos + 1 == |s| || !IsWordChar(s[pos + 1])))
             || (s[pos] == '$' && OpeningTag(s, pos).None?)
    ensures TokenAt(s, pos, d) == Failed(Error(pos, ExpectedSqlToken))
  {
    assert StartsNoToken(s, pos);
    UnknownCharacterFails(s, pos, d);
  }

  /** A group still open at the end of input fails there: the end marker is no group end. */
  lemma {:induction false} GroupAtEofFails(s: string, start: nat, d: string, items: seq<Token>)
    requires start < |s| && d != "" && IsOpener(s[start])
    requires |items| >= 1 && items[0] == Atom([s[start]])
    requires forall i | 0 <= i < |items| :: WellFormed(items[i])
    requires TruthyText(d) && NoRepeatedTag(s) ==> Flatten(items) == s[start..]
    ensures GroupRest(s, start, |s|, d, items) == Failed(Error(|s|, ExpectedGroupEnd))
  {
    assert s[start..|s|] == s[start..];
  }

  /** An opening bracket followed right away by its mate is a group of those two atoms. */
  lemma EmptyGroup(s: string, pos: nat, d: string)
    requires pos + 1 < |s| && d != "" && IsOpener(s[pos]) && s[pos + 1] == Mate(s[pos])
    ensures GroupAt(s, pos, d) == Match(Group([Atom([s[pos]]), Atom([s[pos + 1]])]), pos + 2)
  {
    SingleCharPrefix(s, pos + 1, Mate(s[pos]));
    assert Flatten([Atom([s[pos]])]) == [s[pos]] by {
      FlattenAppend([], Atom([s[pos]]));
      assert [] + [Atom([s[pos]])] == [Atom([s[pos]])];
    }
    assert s[pos..pos + 1] == [s[pos]];
    assert [Atom([s[pos]])] + [Atom([Mate(s[pos])])] == [Atom([s[pos]]), Atom([s[pos + 1]])];
  }

  /** A `DELIMITER` directive covers `s[a..b]`: the word, the blanks after it and the rest
      of its line through the line breaks that end it. */
  ghost predicate DirectiveSpan(s: string, a: nat, b: nat) {
    && a + 9 <= b <= |s|
    && IsDirective(Atom(s[a..a + 9]))
    && ThroughLineBreak(s, RunEnd(s, a + 9, IsBlank)) == Some(b)
  }

  /** The delimiter the directive covering `s[a..b]` sets: its line after the blanks, trimmed. */
  ghost function DirectiveValue(s: string, a: nat, b: nat): string
    requires DirectiveSpan(s, a, b)
  {
    Trim(s[RunEnd(s, a + 9, IsBlank)..b])
  }

  /** No directive in `s` sets the delimiter `0`, which PHP reads as false. */
  ghost predicate NoZeroDirective(s: string) {
    forall a, b | DirectiveSpan(s, a, b) :: DirectiveValue(s, a, b) != "0"
  }

  /** The stretches `spans` lie in order, without overlap, within `p..e`. */
  ghost predicate InOrder(p: nat, e: nat, spans: seq<(nat, nat)>)
    decreases |spans|
  {
    if spans == [] then p <= e
    else p <= spans[0].0 <= spans[0].1 <= e && InOrder(spans[0].1, e, spans[1..])
  }

  /** `spans` are directive spans, in order, within `s[p..e]`. */
  ghost predicate Directives(s: string, p: nat, e: nat, spans: seq<(nat, nat)>) {
    && e <= |s|
    && InOrder(p, e, spans)
    && forall i | 0 <= i < |spans| :: DirectiveSpan(s, spans[i].0, spans[i].1)
  }

  /** `s[p..e]` with the stretches `spans` cut out. */
  ghost function Erase(s: string, p: nat, e: nat, spans: seq<(nat, nat)>): string
    requires e <= |s| && InOrder(p, e, spans)
    decreases |spans|
  {
    if spans == [] then s[p..e] else s[p..spans[0].0] + Erase(s, spans[0].1, e, spans[1..])
  }

  /** The delimiter in force after the directives `spans`, starting from `d`: the one the
      last of them sets. */
  ghost function DelimiterAfter(s: string, d: string, spans: seq<(nat, nat)>): string
    requires forall i | 0 <= i < |spans| :: DirectiveSpan(s, spans[i].0, spans[i].1)
  {
    if spans == [] then d else DirectiveValue(s, spans[|spans| - 1].0, spans[|spans| - 1].1)
  }

  /** What ends a statement at `s[e..n]`: the end of input, or the delimiter `d`. */
  ghost predicate Ends(s: string, e: nat, n: nat, d: string)
    requires e <= n <= |s|
  {
    (e == n == |s|) || s[e..n] == d
  }

  /** Moving the start of a stretch back over text with no directive in it keeps the
      order of its spans and puts that text in front of what is left once they are cut out. */
  lemma {:induction false} EraseFrom(s: string, p: nat, q: nat, e: nat, spans: seq<(nat, nat)>)
    requires p <= q && e <= |s| && InOrder(q, e, spans)
    ensures InOrder(p, e, spans)
    ensures Erase(s, p, e, spans) == s[p..q] + Erase(s, q, e, spans)
  {
    if spans == [] {
      assert s[p..e] == s[p..q] + s[q..e];
    } else {
      var a, rest := spans[0].0, Erase(s, spans[0].1, e, spans[1..]);
      assert s[p..a] == s[p..q] + s[q..a];
      assert s[p..a] + rest == s[p..q] + (s[q..a] + rest);
    }
  }

  /** The end marker under a delimiter PHP reads as true stands for the delimiter it
      consumed or for the end of input. */
  lemma EndsAt(s: string, pos: nat, d: string)
    requires pos <= |s| && TruthyText(d)
    requires TokenAt(s, pos, d).Match? && TokenAt(s, pos, d).value == EndMarker
    ensures Ends(s, pos, TokenAt(s, pos, d).next, d)
  {
  }

  /** A `DELIMITER` word at `p` ending at `q` starts a directive span, and the statement
      goes on after it with the delimiter that span sets. */
  lemma {:induction false} DirectiveStep(s: string, p: nat, q: nat, d: string, tokens: seq<Token>)
    requires p <= |s| && TruthyText(d) && NoRepeatedTag(s) && NoZeroDirective(s)
    requires forall i | 0 <= i < |tokens| :: Kept(tokens[i])
    requires TokenAt(s, p, d).Match? && TokenAt(s, p, d).next == q && IsDirective(TokenAt(s, p, d).value)
    requires StatementRest(s, p, d, tokens).Match?
    ensures var b := RunEnd(s, q, IsBlank);
      && ThroughLineBreak(s, b).Some?
      && var l := ThroughLineBreak(s, b).value;
      && DirectiveSpan(s, p, l) && TruthyText(DirectiveValue(s, p, l))
      && StatementRest(s, p, d, tokens) == StatementRest(s, l, DirectiveValue(s, p, l), tokens)
  {
    var t := TokenAt(s, p, d).value;
    assert Verbatim(s, p, TokenAt(s, p, d));
    assert t == Atom(s[p..q]);
    DirectiveSetsDelimiter(s, p, d, tokens);
  }

  /** One more directive span in front of a stretch: nothing of it is left once spans are
      cut out, and the delimiter it sets holds unless a later span sets another. */
  lemma {:induction false} DirectiveCons(s: string, p: nat, l: nat, e: nat, d: string, d': string, spans: seq<(nat, nat)>)
    requires DirectiveSpan(s, p, l) && d' == DirectiveValue(s, p, l) && Directives(s, l, e, spans)
    ensures Directives(s, p, e, [(p, l)] + spans)
    ensures Erase(s, p, e, [(p, l)] + spans) == Erase(s, l, e, spans)
    ensures DelimiterAfter(s, d, [(p, l)] + spans) == DelimiterAfter(s, d', spans)
  {
    var spans' := [(p, l)] + spans;
    assert spans'[1..] == spans;
    assert forall i | 0 < i < |spans'| :: spans'[i] == spans[i - 1];
    assert Erase(s, p, e, spans') == s[p..p] + Erase(s, l, e, spans);
    assert s[p..p] + Erase(s, l, e, spans) == Erase(s, l, e, spans);
  }

  /** The statement `st`, read from `p` with delimiter `d` after `tokens` and stopped at
      `n`, spells `tokens` then the input from `p` up to some `e`, less the directive spans
      there; its delimiter is the one the last span set, and `s[e..n]` is what ended it. */
  ghost predicate Spelled(s: string, p: nat, n: nat, d: string, tokens: seq<Token>, st: Statement) {
    exists e, spans | p <= e <= n <= |s| && Directives(s, p, e, spans) ::
      && Flatten(st.tokens) == Flatten(tokens) + Erase(s, p, e, spans)
      && st.delimiter == DelimiterAfter(s, d, spans)
      && Ends(s, e, n, st.delimiter)
  }

  /** The end marker right at `p`: nothing more is spelled. */
  lemma {:induction false} SpelledEnd(s: string, p: nat, d: string, tokens: seq<Token>)
    requires p <= |s| && TruthyText(d)
    requires TokenAt(s, p, d).Match? && TokenAt(s, p, d).value == EndMarker
    ensures Spelled(s, p, TokenAt(s, p, d).next, d, tokens, Statement(tokens, d))
  {
    EndsAt(s, p, d);
    assert Directives(s, p, p, []);
    assert Flatten(tokens) + Erase(s, p, p, []) == Flatten(tokens);
  }

  /** A token spelling `s[p..q]` in front of a spelled rest. */
  lemma {:induction false} SpelledToken(s: string, p: nat, q: nat, n: nat, d: string, tokens: seq<Token>, t: Token, st: Statement)
    requires p <= q <= |s| && FlattenToken(t) == s[p..q] && Spelled(s, q, n, d, tokens + [t], st)
    ensures Spelled(s, p, n, d, tokens, st)
  {
    var e, spans :| q <= e <= n <= |s| && Directives(s, q, e, spans)
      && Flatten(st.tokens) == Flatten(tokens + [t]) + Erase(s, q, e, spans)
      && st.delimiter == DelimiterAfter(s, d, spans)
      && Ends(s, e, n, st.delimiter);
    EraseFrom(s, p, q, e, spans);
    AppendText(tokens, t, Erase(s, q, e, spans), Erase(s, p, e, spans));
    assert Directives(s, p, e, spans);
  }

  /** A directive span `s[p..l]` in front of a rest spelled with the delimiter it sets. */
  lemma {:induction false} SpelledDirective(s: string, p: nat, l: nat, n: nat, d: string, tokens: seq<Token>, st: Statement)
    requires DirectiveSpan(s, p, l) && Spelled(s, l, n, DirectiveValue(s, p, l), tokens, st)
    ensures Spelled(s, p, n, d, tokens, st)
  {
    var d' := DirectiveValue(s, p, l);
    var e, spans :| l <= e <= n <= |s| && Directives(s, l, e, spans)
      && Flatten(st.tokens) == Flatten(tokens) + Erase(s, l, e, spans)
      && st.delimiter == DelimiterAfter(s, d', spans)
      && Ends(s, e, n, st.delimiter);
    DirectiveCons(s, p, l, e, d, d', spans);
  }

  /** Round trip of the token loop: the kept tokens spell the input up to the delimiter
      that stopped the loop, less the directive spans, and the delimiter reported is the
      one the last of those spans set. */
  lemma {:induction false} StatementRestText(s: string, p: nat, d: string, tokens: seq<Token>)
    requires p <= |s| && TruthyText(d) && NoRepeatedTag(s) && NoZeroDirective(s)
    requires forall i | 0 <= i < |tokens| :: Kept(tokens[i])
    ensures var r := StatementRest(s, p, d, tokens);
      r.Match? ==> TruthyText(r.value.delimiter) && Spelled(s, p, r.next, d, tokens, r.value)
    decreases |s| - p
  {
    var r := StatementRest(s, p, d, tokens);
    var token := TokenAt(s, p, d);
    if r.Match? && token.Match? {
      var t, q := token.value, token.next;
      if t == EndMarker {
        assert r == Match(Statement(tokens, d), q);
        SpelledEnd(s, p, d, tokens);
      } else if IsDirective(t) {
        DirectiveStep(s, p, q, d, tokens);
        var l := ThroughLineBreak(s, RunEnd(s, q, IsBlank)).value;
        StatementRestText(s, l, DirectiveValue(s, p, l), tokens);
        SpelledDirective(s, p, l, r.next, d, tokens, r.value);
      } else {
        assert r == StatementRest(s, q, d, tokens + [t]);
        StatementRestText(s, q, d, tokens + [t]);
        assert FlattenToken(t) == s[p..q] by {
          assert Verbatim(s, p, token);
        }
        SpelledToken(s, p, q, r.next, d, tokens, t, r.value);
      }
    }
  }

  /** Round trip of `statement()`: after the white space it skips, the statement is
      spelled by the input up to what ended it, less the directive spans. */
  lemma StatementAtText(s: string, pos: nat, d: string)
    requires pos <= |s| && TruthyText(d) && NoRepeatedTag(s) && NoZeroDirective(s)
    ensures var r := StatementAt(s, pos, d);
      r.Match? ==> TruthyText(r.value.delimiter) && Spelled(s, RunEnd(s, pos, IsSpace), r.next, d, [], r.value)
  {
    var b := RunEnd(s, pos, IsSpace);
    if b < |s| {
      StatementRestText(s, b, d, []);
    }
  }

  /** Where one statement lies in the input: from `text` to `sep` its tokens' text with the
      directive spans `spans` in it, then what ended it up to `next`. */
  datatype Piece = Piece(text: nat, sep: nat, next: nat, spans: seq<(nat, nat)>)

  /** The statements lie in order in `s` from `pos`, read with delimiter `d` at first: each
      after the white space that `statement()` skips, each spelled by its stretch less the
      directive spans there, each followed by the delimiter those spans left in force (or
      the end of input), which the next statement is read with. The one extra piece at the
      end says where collecting stopped: at the end of input after white space, or at a
      statement with no tokens. */
  ghost predicate Layout(s: string, pos: nat, d: string, statements: seq<seq<Token>>, pieces: seq<Piece>)
    requires pos <= |s|
    decreases |statements|
  {
    && |pieces| == |statements| + 1
    && var c := pieces[0];
    && c.text == RunEnd(s, pos, IsSpace)
    && c.text <= c.sep <= c.next <= |s|
    && Directives(s, c.text, c.sep, c.spans)
    && var after := DelimiterAfter(s, d, c.spans);
    && Ends(s, c.sep, c.next, after)
    && if statements == [] then
         c.text == |s| || Erase(s, c.text, c.sep, c.spans) == []
       else
         && Flatten(statements[0]) == Erase(s, c.text, c.sep, c.spans)
         && Layout(s, c.next, after, statements[1..], pieces[1..])
  }

  /** Round trip of `statements()`: the statements it collected from `pos` (after `acc`),
      starting with delimiter `d`, are the input read in order, less white space before each
      statement, directive spans inside it and the delimiter after it. */
  lemma StatementsLayout(s: string, pos: nat, d: string, acc: seq<seq<Token>>)
    requires pos <= |s| && TruthyText(d) && NoRepeatedTag(s) && NoZeroDirective(s)
    requires forall i | 0 <= i < |acc| :: KeptStatement(acc[i])
    ensures var r := StatementsFrom(s, pos, d, acc);
      r.Ok? ==> exists pieces :: Layout(s, pos, d, r.value[|acc|..], pieces)
  {
    var pieces := StatementsPieces(s, pos, d, acc);
  }

  /** The pieces `StatementsLayout` speaks of, built statement by statement. */
  lemma {:induction false} StatementsPieces(s: string, pos: nat, d: string, acc: seq<seq<Token>>) returns (pieces: seq<Piece>)
    requires pos <= |s| && TruthyText(d) && NoRepeatedTag(s) && NoZeroDirective(s)
    requires forall i | 0 <= i < |acc| :: KeptStatement(acc[i])
    ensures var r := StatementsFrom(s, pos, d, acc);
      r.Ok? ==> Layout(s, pos, d, r.value[|acc|..], pieces)
    decreases |s| - pos
  {
    var r := StatementsFrom(s, pos, d, acc);
    var statement := StatementAt(s, pos, d);
    if r.Ok? && statement.Match? && statement.value.tokens != [] {
      var st, next := statement.value, statement.next;
      StatementAtText(s, pos, d);
      assert r == StatementsFrom(s, next, st.delimiter, acc + [st.tokens]);
      assert r.value[|acc|] == (acc + [st.tokens])[|acc|];
      var rest := StatementsPieces(s, next, st.delimiter, acc + [st.tokens]);
      var c := LayoutCons(s, pos, d, r.value, |acc|, next, st, rest);
      pieces := [c] + rest;
    } else if r.Ok? {
      pieces := LayoutStop(s, pos, d);
      assert r.value[|acc|..] == [];
    } else {
      pieces := [];
    }
  }

  /** Where `statements()` stops: the empty layout. */
  lemma {:induction false} LayoutStop(s: string, pos: nat, d: string) returns (pieces: seq<Piece>)
    requires pos <= |s| && TruthyText(d) && NoRepeatedTag(s) && NoZeroDirective(s)
    requires StatementAt(s, pos, d).NoMatch? || (StatementAt(s, pos, d).Match? && StatementAt(s, pos, d).value.tokens == [])
    ensures Layout(s, pos, d, [], pieces)
  {
    var b := RunEnd(s, pos, IsSpace);
    var statement := StatementAt(s, pos, d);
    if statement.NoMatch? {
      assert Directives(s, b, b, []);
      pieces := [Piece(b, b, b, [])];
    } else {
      StatementAtText(s, pos, d);
      var e, spans :| b <= e <= statement.next <= |s| && Directives(s, b, e, spans)
        && Flatten(statement.value.tokens) == Flatten([]) + Erase(s, b, e, spans)
        && statement.value.delimiter == DelimiterAfter(s, d, spans)
        && Ends(s, e, statement.next, statement.value.delimiter);
      pieces := [Piece(b, e, statement.next, spans)];
    }
  }

  /** One more statement, the one `StatementAt` read at `pos`, in front of a layout: `c`
      is where it lies. */
  lemma {:induction false} LayoutCons(s: string, pos: nat, d: string, statements: seq<seq<Token>>, k: nat, n: nat, st: Statement, pieces: seq<Piece>)
    returns (c: Piece)
    requires pos <= |s| && k < |statements| && statements[k] == st.tokens
    requires Spelled(s, RunEnd(s, pos, IsSpace), n, d, [], st)
    requires Layout(s, n, st.delimiter, statements[k + 1..], pieces)
    ensures Layout(s, pos, d, statements[k..], [c] + pieces)
  {
    var b := RunEnd(s, pos, IsSpace);
    var e, spans :| b <= e <= n <= |s| && Directives(s, b, e, spans)
      && Flatten(st.tokens) == Flatten([]) + Erase(s, b, e, spans)
      && st.delimiter == DelimiterAfter(s, d, spans)
      && Ends(s, e, n, st.delimiter);
    SliceFront(statements, k);
    c := Piece(b, e, n, spans);
    assert ([c] + pieces)[1..] == pieces;
    assert Flatten([]) + Erase(s, b, e, spans) == Erase(s, b, e, spans);
  }

  /** Round trip of `tokenize()`: the statements are the input read in order, less white
      space, `DELIMITER` directives and delimiters, up to the end of input or an empty
      statement. */
  lemma TokenizationLayout(s: string)
    requires NoRepeatedTag(s) && NoZeroDirective(s)
    ensures Tokenization(s).Ok? ==> exists pieces :: Layout(s, 0, InitialDelimiter, Tokenization(s).value, pieces)
  {
    StatementsLayout(s, 0, InitialDelimiter, []);
    assert Tokenization(s).Ok? ==> Tokenization(s).value[0..] == Tokenization(s).value;
  }

  /** `Kodus\SQL\Tokenizer`: a cursor over the input and the delimiter in force. */
  class Tokenizer {
    const cursor: Cursor
    var delimiter: string

    ghost predicate Valid()
      reads this, cursor
    {
      cursor.Valid() && delimiter != ""
    }

    constructor (input: string)
      ensures Valid() && fresh(cursor)
      ensures cursor.input == input && cursor.offset == 0 && delimiter == InitialDelimiter
    {
      cursor := new Cursor(input);
      delimiter := InitialDelimiter;
    }

    /** `Tokenizer::tokenize($input)` */
    static method Tokenize(input: string) returns (r: Result<seq<seq<Token>>>)
      ensures r == Tokenization(input)
    {
      var parser := new Tokenizer(input);
      r := parser.Statements();
    }

    /** `statements()` */
    method Statements() returns (r: Result<seq<seq<Token>>>)
      requires Valid()
      modifies this, cursor
      ensures r == StatementsFrom(cursor.input, old(cursor.offset), old(delimiter), [])
    {
      ghost var spec := StatementsFrom(cursor.input, cursor.offset, delimiter, []);
      var statements: seq<seq<Token>> := [];
      while true
        invariant Valid()
        invariant forall i | 0 <= i < |statements| :: KeptStatement(statements[i])
        invariant spec == StatementsFrom(cursor.input, cursor.offset, delimiter, statements)
        decreases |cursor.input| - cursor.offset
      {
        var result := Statement();
        match result
        case NoMatch => return Ok(statements);
        case Failed(e) => return Err(e);
        case Match(tokens, _) =>
          if tokens == [] {
            return Ok(statements);
          }
          statements := statements + [tokens];
      }
    }

    /** `statement()`: the tokens of the next statement, or none (`null`) when only white
        space is left; the delimiter afterwards is the one `StatementAt` reports. */
    method Statement() returns (r: Scan<seq<Token>>)
      requires Valid()
      modifies this, cursor
      ensures Valid()
      ensures var spec := StatementAt(cursor.input, old(cursor.offset), old(delimiter));
        && spec.NoMatch? == r.NoMatch?
        && (spec.Failed? ==> r == Failed(spec.error))
        && (spec.Match? ==> r == Match(spec.value.tokens, spec.next) && delimiter == spec.value.delimiter)
      ensures r.Match? ==> cursor.offset == r.next
    {
      var _ := cursor.ConsumeWhile(IsSpace);
      var eof := cursor.IsEOF();
      if eof {
        return NoMatch;
      }
      ghost var spec := StatementRest(cursor.input, cursor.offset, delimiter, []);
      var tokens: seq<Token> := [];
      while true
        invariant Valid()
        invariant forall i | 0 <= i < |tokens| :: Kept(tokens[i])
        invariant spec == StatementRest(cursor.input, cursor.offset, delimiter, tokens)
        decreases |cursor.input| - cursor.offset
      {
        var token := Token();
        if token.Failed? {
          return Failed(token.error);
        }
        if token.value == EndMarker {
          return Match(tokens, cursor.offset);
        }
        if IsDirective(token.value) {
          var _ := cursor.ConsumeWhile(IsBlank);
          var line := cursor.ConsumeLine();
          var d := Trim(line);
          if d == "" {
            return Failed(Error(cursor.offset, ExpectedDelimiter));
          }
          delimiter := d;
          continue;
        }
        tokens := tokens + [token.value];
      }
    }

    /** `token()` */
    method Token() returns (r: Scan<Token>)
      requires Valid()
      modifies cursor
      ensures Valid() && r == TokenAt(cursor.input, old(cursor.offset), delimiter)
      ensures r.Match? ==> cursor.offset == r.next
      decreases |cursor.input| - cursor.offset, 1
    {
      var atDelimiter := cursor.ConsumeLiteral(delimiter);
      if atDelimiter.Match? && TruthyText(delimiter) {
        return Match(EndMarker, cursor.offset);
      }
      var lead := Leading();
      if !lead.NoMatch? {
        return AsAtom(lead);
      }
      r := Grouped();
      if !r.NoMatch? {
        return;
      }
      var trail := cursor.TrailingAtom();
      if !trail.NoMatch? {
        return AsAtom(trail);
      }
      var eof := cursor.IsEOF();
      if eof {
        return Match(EndMarker, cursor.offset);
      }
      return Failed(Error(cursor.offset, ExpectedSqlToken));
    }

    /** The rules of `token()` before `grouped()`. */
    method Leading() returns (r: Scan<string>)
      requires Valid()
      modifies cursor
      ensures Valid() && r == LeadingAtom(cursor.input, old(cursor.offset))
      ensures r.Match? ==> cursor.offset == r.next
      ensures r.NoMatch? ==> cursor.offset == old(cursor.offset)
    {
      r := cursor.ConsumeRun(IsWordChar);
      if r.Match? {
        return;
      }
      r := cursor.ConsumeRun(IsSpace);
      if r.Match? {
        return;
      }
      r := cursor.Comment();
      if !r.NoMatch? {
        return;
      }
      r := cursor.ConsumeOneOf(Operators);
      if r.Match? {
        return;
      }
      r := cursor.ConsumePrefixed('@');
      if r.Match? {
        return;
      }
      r := cursor.Quoted();
    }

    /** `grouped()` */
    method Grouped() returns (r: Scan<Token>)
      requires Valid()
      modifies cursor
      ensures Valid() && r == GroupAt(cursor.input, old(cursor.offset), delimiter)
      ensures r.Match? ==> cursor.offset == r.next
      ensures r.NoMatch? ==> cursor.offset == old(cursor.offset)
      decreases |cursor.input| - cursor.offset, 0
    {
      var opening := cursor.ConsumeOneOf({'(', '{', '['});
      if opening.NoMatch? {
        return NoMatch;
      }
      var start := cursor.offset - 1;
      assert opening.value == [cursor.input[start]] == cursor.input[start..cursor.offset];
      assert Flatten([Atom(opening.value)]) == opening.value by {
        FlattenAppend([], Atom(opening.value));
        assert [] + [Atom(opening.value)] == [Atom(opening.value)];
      }
      r := GroupedLoop(start, Mate(opening.value[0]), [Atom(opening.value)]);
    }

    /** The `while (true)` loop of `grouped()` for the opening bracket at `start`, with the
        tokens `items` collected so far and the closing bracket `closing` it waits for. */
    method GroupedLoop(start: nat, closing: char, items: seq<Token>) returns (r: Scan<Token>)
      requires Valid() && start < cursor.offset && IsOpener(cursor.input[start])
      requires closing == Mate(cursor.input[start])
      requires |items| >= 1 && items[0] == Atom([cursor.input[start]])
      requires forall i | 0 <= i < |items| :: WellFormed(items[i])
      requires TruthyText(delimiter) && NoRepeatedTag(cursor.input) ==> Flatten(items) == cursor.input[start..cursor.offset]
      modifies cursor
      ensures Valid() && r == GroupRest(cursor.input, start, old(cursor.offset), delimiter, items)
      ensures r.Match? ==> cursor.offset == r.next
      decreases |cursor.input| - cursor.offset, 2
    {
      var tokens := items;
      while true
        invariant Valid() && start < cursor.offset
        invariant |tokens| >= 1 && tokens[0] == Atom([cursor.input[start]])
        invariant forall i | 0 <= i < |tokens| :: WellFormed(tokens[i])
        invariant TruthyText(delimiter) && NoRepeatedTag(cursor.input) ==> Flatten(tokens) == cursor.input[start..cursor.offset]
        invariant GroupRest(cursor.input, start, old(cursor.offset), delimiter, items) == GroupRest(cursor.input, start, cursor.offset, delimiter, tokens)
        decreases |cursor.input| - cursor.offset
      {
        var closes := cursor.Is([closing]);
        if closes {
          tokens := tokens + [Atom([closing])];
          cursor.offset := cursor.offset + 1;
          return Match(Group(tokens), cursor.offset);
        }
        ghost var p := cursor.offset;
        var token := Token();
        if token.Failed? {
          return token;
        }
        if token.value == EndMarker {
          return Failed(Error(cursor.offset, ExpectedGroupEnd));
        }
        FlattenAppend(tokens, token.value);
        SliceJoin(cursor.input, start, p, cursor.offset);
        tokens := tokens + [token.value];
      }
    }
  }
}
