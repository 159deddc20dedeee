/** The older statement tokenizer (`mindplay\sql_parser\SQLTokenizer`): the same recursive
    descent and scanners as `Tokenizer`, with no delimiter state. A `;` ends a statement,
    tried only after every other rule, a smaller operator set and no `@` variables. A
    statement ends at the first token PHP reads as false, so a word `0` ends it too. */
module SqlParser {
  import opened Tokens
  import opened Lexer
  import opened Cursors

  /** `[\*,.+-\/=]`; the range `+-\/` spans `+ , - . /`. */
  const Operators: set<char> := {'*', '+', ',', '-', '.', '/', '='}

  /** The rules `token()` tries before a bracket group: a word, white space, a comment, an
      operator, a quoted literal. */
  function LeadingAtom(s: string, pos: nat): (r: Scan<string>)
    requires pos <= |s|
    ensures Lexeme(s, pos, r)
    ensures r.Failed? ==> pos < r.error.offset <= |s| && r.error.reason != ExpectedSqlToken && r.error.reason != ExpectedGroupEnd
  {
    var word := Run(s, pos, IsWordChar);
    if word.Match? then word else
    var space := Run(s, pos, IsSpace);
    if space.Match? then space else
    var comment := Comment(s, pos);
    if !comment.NoMatch? then comment else
    LeadingSymbol(s, pos)
  }

  /** The rules of `token()` after the comment: an operator, a quoted literal. */
  function LeadingSymbol(s: string, pos: nat): (r: Scan<string>)
    requires pos <= |s|
    ensures Lexeme(s, pos, r)
    ensures r.Failed? ==> pos < r.error.offset <= |s| && r.error.reason != ExpectedSqlToken && r.error.reason != ExpectedGroupEnd
  {
    var operator := OneOf(s, pos, Operators);
    if operator.Match? then operator else
    Quoted(s, pos)
  }

  /** `token()` at `pos`: the first rule that matches; the end marker at the end of input
      or, last of all, at a `;`. */
  function TokenAt(s: string, pos: nat): (r: Scan<Token>)
    requires pos <= |s|
    ensures !r.NoMatch?
    ensures r.Match? ==> pos <= r.next <= |s|
    ensures r.Match? && r.value != EndMarker ==> pos < r.next && WellFormed(r.value)
    ensures r.Match? && r.value == EndMarker ==> (pos == |s| && r.next == pos) || (StartsWith(s, pos, ";") && r.next == pos + 1)
    ensures r.Match? && r.value != EndMarker && NoRepeatedTag(s) ==> Verbatim(s, pos, r)
    decreases |s| - pos, 1
  {
    var lead := LeadingAtom(s, pos);
    if !lead.NoMatch? then AsAtom(lead) else
    var group := GroupAt(s, pos);
    if !group.NoMatch? then group else
    var trail := TrailingAtom(s, pos);
    if !trail.NoMatch? then AsAtom(trail) else
    if pos == |s| then Match(EndMarker, pos)
    else if StartsWith(s, pos, ";") then Match(EndMarker, pos + 1)
    else Failed(Error(pos, ExpectedSqlToken))
  }

  /** `grouped()` at `pos`: nothing unless an opening bracket is there, else the bracket
      group through its mate. */
  function GroupAt(s: string, pos: nat): (r: Scan<Token>)
    requires pos <= |s|
    ensures r.NoMatch? <==> !(pos < |s| && IsOpener(s[pos]))
    ensures r.Match? ==> pos < r.next <= |s| && r.value.Group? && WellFormed(r.value)
    ensures NoRepeatedTag(s) ==> Verbatim(s, pos, r)
    decreases |s| - pos, 0
  {
    if pos < |s| && IsOpener(s[pos]) then
      GroupRest(s, pos, pos + 1, [Atom([s[pos]])])
    else NoMatch
  }

  /** The loop of `grouped()`: `items` were collected from `start` up to `p`. The closing
      bracket is looked for before each token; the end marker inside a group fails. */
  function GroupRest(s: string, start: nat, p: nat, items: seq<Token>): (r: Scan<Token>)
    requires start < p <= |s| && IsOpener(s[start])
    requires |items| >= 1 && items[0] == Atom([s[start]])
    requires forall i | 0 <= i < |items| :: WellFormed(items[i])
    requires NoRepeatedTag(s) ==> Flatten(items) == s[start..p]
    ensures !r.NoMatch?
    ensures r.Match? ==> p < r.next <= |s| && r.value.Group? && WellFormed(r.value)
    ensures r.Match? ==> r.value.items[0] == Atom([s[start]])
    ensures NoRepeatedTag(s) ==> Verbatim(s, start, r)
    decreases |s| - p, 2
  {
    var closing := Mate(s[start]);
    if StartsWith(s, p, [closing]) then
      FlattenAppend(items, Atom([closing]));
      SliceJoin(s, start, p, p + 1);
      Match(Group(items + [Atom([closing])]), p + 1)
    else
      match TokenAt(s, p)
      case Failed(e) => Failed(e)
      case Match(t, q) =>
        if t == EndMarker then Failed(Error(q, ExpectedGroupEnd))
        else
          FlattenAppend(items, t);
          SliceJoin(s, start, p, q);
          GroupRest(s, start, q, items + [t])
  }

  /** A token that may stand in a returned statement: one PHP reads as true, and well formed. */
  ghost predicate Kept(t: Token) {
    Truthy(t) && WellFormed(t)
  }

  /** A statement `statements()` keeps: non-empty, and every token in it kept. */
  ghost predicate KeptStatement(ts: seq<Token>) {
    ts != [] && forall j | 0 <= j < |ts| :: Kept(ts[j])
  }

  /** `statement()` at `pos`: no statement (`null`) when only white space is left, else the
      tokens up to the first one PHP reads as false. */
  function StatementAt(s: string, pos: nat): (r: Scan<seq<Token>>)
    requires pos <= |s|
    ensures r.NoMatch? <==> RunEnd(s, pos, IsSpace) == |s|
    ensures r.Match? ==> pos < r.next <= |s|
    ensures r.Match? ==> forall i | 0 <= i < |r.value| :: Kept(r.value[i])
  {
    var p := RunEnd(s, pos, IsSpace);
    if p == |s| then NoMatch else StatementRest(s, p, [])
  }

  /** The loop of `statement()` at `p`, with `tokens` collected so far. The false token
      that stops it (the end marker or an atom `0`) is consumed and not kept. */
  function StatementRest(s: string, p: nat, tokens: seq<Token>): (r: Scan<seq<Token>>)
    requires p <= |s|
    requires forall i | 0 <= i < |tokens| :: Kept(tokens[i])
    ensures !r.NoMatch?
    ensures r.Match? ==> p <= r.next <= |s|
    ensures r.Match? && p < |s| ==> p < r.next
    ensures r.Match? ==> forall i | 0 <= i < |r.value| :: Kept(r.value[i])
    decreases |s| - p
  {
    match TokenAt(s, p)
    case Failed(e) => Failed(e)
    case Match(t, q) =>
      if !Truthy(t) then Match(tokens, q)
      else StatementRest(s, q, tokens + [t])
  }

  /** `statements()` from `pos`: statements are collected until `statement()` yields none
      or an empty one. */
  function StatementsFrom(s: string, pos: nat, acc: seq<seq<Token>>): (r: Result<seq<seq<Token>>>)
    requires pos <= |s|
    requires forall i | 0 <= i < |acc| :: KeptStatement(acc[i])
    ensures r.Ok? ==> |acc| <= |r.value| && forall i | 0 <= i < |acc| :: r.value[i] == acc[i]
    ensures r.Ok? ==> forall i | 0 <= i < |r.value| :: KeptStatement(r.value[i])
    decreases |s| - pos
  {
    match StatementAt(s, pos)
    case NoMatch => Ok(acc)
    case Failed(e) => Err(e)
    case Match(tokens, next) =>
      if tokens == [] then Ok(acc)
      else StatementsFrom(s, next, acc + [tokens])
  }

  /** `SQLTokenizer::tokenize($input)`. */
  function Tokenization(s: string): (r: Result<seq<seq<Token>>>)
    ensures r.Ok? ==> forall i | 0 <= i < |r.value| :: KeptStatement(r.value[i])
  {
    StatementsFrom(s, 0, [])
  }

  /** No rule before `grouped()` matches a character that starts none of them. */
  lemma LeadingNone(s: string, pos: nat)
    requires pos < |s| && !IsWordChar(s[pos]) && !IsSpace(s[pos])
    requires s[pos] !in Operators && s[pos] !in QuoteChars
    ensures LeadingAtom(s, pos).NoMatch?
  {
    CommentNone(s, pos);
  }

  /** A word is an ordinary atom; `DELIMITER` has no meaning of its own here. */
  lemma WordToken(s: string, pos: nat)
    requires pos < |s| && IsWordChar(s[pos])
    ensures var e := RunEnd(s, pos, IsWordChar); TokenAt(s, pos) == Match(Atom(s[pos..e]), e)
  {
  }

  /** A `;` outside literals and comments ends the statement, since no other rule takes it. */
  lemma SemicolonEndsStatement(s: string, pos: nat)
    requires pos < |s| && s[pos] == ';'
    ensures TokenAt(s, pos) == Match(EndMarker, pos + 1)
  {
    LeadingNone(s, pos);
    TrailingNone(s, pos);
    SingleCharPrefix(s, pos, ';');
  }

  /** A `;` inside a bracket group fails one character after it. */
  lemma {:induction false} SemicolonInGroupFails(s: string, start: nat, p: nat, items: seq<Token>)
    requires start < p < |s| && IsOpener(s[start]) && s[p] == ';'
    requires |items| >= 1 && items[0] == Atom([s[start]])
    requires forall i | 0 <= i < |items| :: WellFormed(items[i])
    requires NoRepeatedTag(s) ==> Flatten(items) == s[start..p]
    ensures GroupRest(s, start, p, items) == Failed(Error(p + 1, ExpectedGroupEnd))
  {
    SemicolonEndsStatement(s, p);
    SingleCharPrefix(s, p, Mate(s[start]));
  }

  /** No rule of `token()` can start at `pos`: not a word or white space character, not an
      operator (which covers the comment openers), not a quote, an opening bracket or
      `;`, no `:` before a word character and no `$\w*$` tag. */
  ghost predicate StartsNoToken(s: string, pos: nat)
    requires pos < |s|
  {
    var c := s[pos];
    && !IsWordChar(c) && !IsSpace(c) && c !in Operators && c !in QuoteChars
    && !IsOpener(c) && c != ';'
    && !(c == ':' && pos + 1 < |s| && IsWordChar(s[pos + 1]))
    && OpeningTag(s, pos).None?
  }

  /** What a failure tells about the input: "expected SQL token" stands at a character that
      starts no rule, and "expected token or group end" comes at the end of input or right
      after a `;`. */
  ghost predicate FailureCause(s: string, e: Error) {
    && (e.reason == ExpectedSqlToken ==> e.offset < |s| && StartsNoToken(s, e.offset))
    && (e.reason == ExpectedGroupEnd ==> e.offset == |s| || (0 < e.offset <= |s| && s[e.offset - 1] == ';'))
  }

  /** Where and why `token()` fails: never before the cursor, and for one of the causes above. */
  lemma {:induction false} TokenFailure(s: string, pos: nat)
    requires pos <= |s|
    ensures var r := TokenAt(s, pos); r.Failed? ==> pos <= r.error.offset <= |s| && FailureCause(s, r.error)
    decreases |s| - pos, 1
  {
    if LeadingAtom(s, pos).NoMatch? {
      GroupFailure(s, pos);
      if pos < |s| {
        SingleCharPrefix(s, pos, ';');
      }
    }
  }

  /** Where and why `grouped()` fails: after the opening bracket, for one of the causes above. */
  lemma {:induction false} GroupFailure(s: string, pos: nat)
    requires pos <= |s|
    ensures var r := GroupAt(s, pos); r.Failed? ==> pos < r.error.offset <= |s| && FailureCause(s, r.error)
    decreases |s| - pos, 0
  {
    if pos < |s| && IsOpener(s[pos]) {
      GroupRestFailure(s, pos, pos + 1, [Atom([s[pos]])]);
    }
  }

  /** Where and why the loop of `grouped()` fails: at or after `p`, for one of the causes above. */
  lemma {:induction false} GroupRestFailure(s: string, start: nat, p: nat, items: seq<Token>)
    requires start < p <= |s| && IsOpener(s[start])
    requires |items| >= 1 && items[0] == Atom([s[start]])
    requires forall i | 0 <= i < |items| :: WellFormed(items[i])
    requires NoRepeatedTag(s) ==> Flatten(items) == s[start..p]
    ensures var r := GroupRest(s, start, p, items); r.Failed? ==> p <= r.error.offset <= |s| && FailureCause(s, r.error)
    decreases |s| - p, 2
  {
    if !StartsWith(s, p, [Mate(s[start])]) {
      var token := TokenAt(s, p);
      if token.Failed? {
        TokenFailure(s, p);
      } else if token.value == EndMarker {
        EndMarkerCause(s, p);
      } else {
        var t, q := token.value, token.next;
        FlattenAppend(items, t);
        SliceJoin(s, start, p, q);
        GroupRestFailure(s, start, q, items + [t]);
      }
    }
  }

  /** The end marker inside a group: the failure it causes comes at the end of input or
      right after a `;`. */
  lemma EndMarkerCause(s: string, p: nat)
    requires p <= |s| && TokenAt(s, p).Match? && TokenAt(s, p).value == EndMarker
    ensures TokenAt(s, p).next <= |s| && FailureCause(s, Error(TokenAt(s, p).next, ExpectedGroupEnd))
  {
    var q := TokenAt(s, p).next;
    if q != |s| {
      assert s[p..p + 1] == ";";
      assert s[q - 1] == s[p..p + 1][0];
    }
  }

  /** "Expected SQL token" at the cursor itself happens exactly at a character that starts no rule. */
  lemma UnknownCharacterFails(s: string, pos: nat)
    requires pos <= |s|
    ensures TokenAt(s, pos) == Failed(Error(pos, ExpectedSqlToken)) <==> pos < |s| && StartsNoToken(s, pos)
  {
    TokenFailure(s, pos);
    if pos < |s| && StartsNoToken(s, pos) {
      LeadingNone(s, pos);
      SingleCharPrefix(s, pos, ';');
    }
  }

  /** A `)`, `]`, `}` with no group open, or a `!`, `#`, `?`, `<`, `>`, lone `@` or lone `:`,
      matches no rule. */
  lemma StrayCharacterFails(s: string, pos: nat)
    requires pos < |s|
    requires s[pos] in {')', ']', '}', '!', '#', '?', '<', '>', '@'} || (s[pos] == ':' && (pos + 1 == |s| || !IsWordChar(s[pos + 1])))
    ensures TokenAt(s, pos) == Failed(Error(pos, ExpectedSqlToken))
  {
    assert OpeningTag(s, pos).None?;
    assert StartsNoToken(s, pos);
    UnknownCharacterFails(s, pos);
  }

  /** A group still open at the end of input fails there: the end marker is no group end. */
  lemma {:induction false} GroupAtEofFails(s: string, start: nat, items: seq<Token>)
    requires start < |s| && IsOpener(s[start])
    requires |items| >= 1 && items[0] == Atom([s[start]])
    requires forall i | 0 <= i < |items| :: WellFormed(items[i])
    requires NoRepeatedTag(s) ==> Flatten(items) == s[start..]
    ensures GroupRest(s, start, |s|, items) == Failed(Error(|s|, ExpectedGroupEnd))
  {
    assert s[start..|s|] == s[start..];
  }

  /** An opening bracket followed right away by its mate is a group of those two atoms. */
  lemma EmptyGroup(s: string, pos: nat)
    requires pos + 1 < |s| && IsOpener(s[pos]) && s[pos + 1] == Mate(s[pos])
    ensures GroupAt(s, pos) == Match(Group([Atom([s[pos]]), Atom([s[pos + 1]])]), pos + 2)
  {
    SingleCharPrefix(s, pos + 1, Mate(s[pos]));
    assert Flatten([Atom([s[pos]])]) == [s[pos]] by {
      FlattenAppend([], Atom([s[pos]]));
      assert [] + [Atom([s[pos]])] == [Atom([s[pos]])];
    }
    assert s[pos..pos + 1] == [s[pos]];
    assert [Atom([s[pos]])] + [Atom([Mate(s[pos])])] == [Atom([s[pos]]), Atom([s[pos + 1]])];
  }

  /** A word `0` is read by PHP as false: it ends the statement and is not kept. */
  lemma {:induction false} ZeroEndsStatement(s: string, p: nat, tokens: seq<Token>)
    requires p < |s| && s[p] == '0' && (p + 1 == |s| || !IsWordChar(s[p + 1]))
    requires forall i | 0 <= i < |tokens| :: Kept(tokens[i])
    ensures StatementRest(s, p, tokens) == Match(tokens, p + 1)
  {
    WordToken(s, p);
    assert RunEnd(s, p + 1, IsWordChar) == p + 1;
    assert s[p..p + 1] == "0";
  }

  /** The text that ends a statement: a `;`, a word `0`, or nothing at the end of input. */
  ghost predicate Separator(s: string, e: nat, n: nat)
    requires e <= n <= |s|
  {
    (e == n == |s|) || s[e..n] == ";" || s[e..n] == "0"
  }

  /** Where one statement lies in the input: its tokens' text from `text` to `sep`, then
      its separator up to `next`. */
  datatype Piece = Piece(text: nat, sep: nat, next: nat)

  /** The statements lie in order in `s` from `pos`, each after the white space that
      `statement()` skips and each followed by its separator. The one extra piece at the
      end says where collecting stopped: at the end of input after white space, or at
      an empty statement (a separator right after the white space). */
  ghost predicate Layout(s: string, pos: nat, statements: seq<seq<Token>>, pieces: seq<Piece>)
    requires pos <= |s|
    decreases |statements|
  {
    && |pieces| == |statements| + 1
    && var c := pieces[0];
    && c.text == RunEnd(s, pos, IsSpace)
    && c.text <= c.sep <= c.next <= |s|
    && if statements == [] then
         c.text == |s| || (c.sep == c.text && Separator(s, c.sep, c.next))
       else
         && Flatten(statements[0]) == s[c.text..c.sep]
         && Separator(s, c.sep, c.next)
         && Layout(s, c.next, statements[1..], pieces[1..])
  }

  /** A token PHP reads as false stands for the separator it consumed: the end marker
      at a `;` or at the end of input, or a word `0`. */
  lemma SeparatorAt(s: string, pos: nat)
    requires pos <= |s| && NoRepeatedTag(s)
    requires TokenAt(s, pos).Match? && !Truthy(TokenAt(s, pos).value)
    ensures Separator(s, pos, TokenAt(s, pos).next)
  {
    var r := TokenAt(s, pos);
    if r.value != EndMarker {
      assert r.value == Atom("0");
      assert FlattenToken(r.value) == s[pos..r.next];
    }
  }

  /** Round trip of the token loop: the kept tokens spell the input up to the separator
      that stopped the loop. */
  lemma {:induction false} StatementRestText(s: string, p: nat, tokens: seq<Token>)
    requires p <= |s| && NoRepeatedTag(s)
    requires forall i | 0 <= i < |tokens| :: Kept(tokens[i])
    ensures var r := StatementRest(s, p, tokens);
      r.Match? ==> exists e | p <= e <= r.next :: Flatten(r.value) == Flatten(tokens) + s[p..e] && Separator(s, e, r.next)
    decreases |s| - p
  {
    var r := StatementRest(s, p, tokens);
    var token := TokenAt(s, p);
    if r.Match? && token.Match? {
      var t, q := token.value, token.next;
      if !Truthy(t) {
        assert r == Match(tokens, q);
        assert Flatten(tokens) + s[p..p] == Flatten(tokens);
        SeparatorAt(s, p);
      } else {
        assert r == StatementRest(s, q, tokens + [t]);
        StatementRestText(s, q, tokens + [t]);
        var e :| q <= e <= r.next && Flatten(r.value) == Flatten(tokens + [t]) + s[q..e] && Separator(s, e, r.next);
        assert Verbatim(s, p, token);
        AppendSpelled(tokens, t, s, p, q, e);
      }
    }
  }

  /** Round trip of `statement()`: after the white space it skips, the statement's tokens
      spell the input up to the separator that ended it. */
  lemma StatementAtText(s: string, pos: nat)
    requires pos <= |s| && NoRepeatedTag(s)
    ensures var r := StatementAt(s, pos); var b := RunEnd(s, pos, IsSpace);
      r.Match? ==> exists e | b <= e <= r.next :: Flatten(r.value) == s[b..e] && Separator(s, e, r.next)
  {
    var b := RunEnd(s, pos, IsSpace);
    if b < |s| {
      StatementRestText(s, b, []);
    }
  }

  /** Round trip of `statements()`: the statements it collected from `pos` (after `acc`)
      are the input read in order, less the white space before each statement and the
      separator after it. */
  lemma StatementsLayout(s: string, pos: nat, acc: seq<seq<Token>>)
    requires pos <= |s| && NoRepeatedTag(s)
    requires forall i | 0 <= i < |acc| :: KeptStatement(acc[i])
    ensures var r := StatementsFrom(s, pos, acc);
      r.Ok? ==> exists pieces :: Layout(s, pos, r.value[|acc|..], pieces)
  {
    var pieces := StatementsPieces(s, pos, acc);
  }

  /** The pieces `StatementsLayout` speaks of, built statement by statement. */
  lemma {:induction false} StatementsPieces(s: string, pos: nat, acc: seq<seq<Token>>) returns (pieces: seq<Piece>)
    requires pos <= |s| && NoRepeatedTag(s)
    requires forall i | 0 <= i < |acc| :: KeptStatement(acc[i])
    ensures var r := StatementsFrom(s, pos, acc);
      r.Ok? ==> Layout(s, pos, r.value[|acc|..], pieces)
    decreases |s| - pos
  {
    var r := StatementsFrom(s, pos, acc);
    var statement := StatementAt(s, pos);
    if r.Ok? && statement.Match? && statement.value != [] {
      var tokens, next := statement.value, statement.next;
      var b := RunEnd(s, pos, IsSpace);
      assert r == StatementsFrom(s, next, acc + [tokens]);
      assert r.value[|acc|] == (acc + [tokens])[|acc|];
      var rest := StatementsPieces(s, next, acc + [tokens]);
      StatementAtText(s, pos);
      var c := LayoutCons(s, pos, r.value, |acc|, next, rest);
      pieces := [c] + rest;
    } else if r.Ok? {
      pieces := LayoutStop(s, pos);
      assert r.value[|acc|..] == [];
    } else {
      pieces := [];
    }
  }

  /** Where `statements()` stops: the empty layout. */
  lemma {:induction false} LayoutStop(s: string, pos: nat) returns (pieces: seq<Piece>)
    requires pos <= |s| && NoRepeatedTag(s)
    requires StatementAt(s, pos).NoMatch? || (StatementAt(s, pos).Match? && StatementAt(s, pos).value == [])
    ensures Layout(s, pos, [], pieces)
  {
    var b := RunEnd(s, pos, IsSpace);
    var statement := StatementAt(s, pos);
    if statement.NoMatch? {
      pieces := [Piece(b, b, b)];
    } else {
      StatementAtText(s, pos);
      var e :| b <= e <= statement.next && Flatten([]) == s[b..e] && Separator(s, e, statement.next);
      assert |s[b..e]| == 0;
      pieces := [Piece(b, e, statement.next)];
    }
  }

  /** One more statement in front of a layout: `c` is where it lies. */
  lemma {:induction false} LayoutCons(s: string, pos: nat, statements: seq<seq<Token>>, k: nat, n: nat, pieces: seq<Piece>)
    returns (c: Piece)
    requires pos <= |s| && k < |statements| && n <= |s|
    requires var b := RunEnd(s, pos, IsSpace);
      exists e | b <= e <= n :: Flatten(statements[k]) == s[b..e] && Separator(s, e, n)
    requires Layout(s, n, statements[k + 1..], pieces)
    ensures Layout(s, pos, statements[k..], [c] + pieces)
  {
    var b := RunEnd(s, pos, IsSpace);
    var e :| b <= e <= n && Flatten(statements[k]) == s[b..e] && Separator(s, e, n);
    SliceFront(statements, k);
    c := Piece(b, e, n);
    assert ([c] + pieces)[1..] == pieces;
  }

  /** Every piece lies within the input. */
  ghost predicate InBounds(s: string, pieces: seq<Piece>) {
    forall i | 0 <= i < |pieces| :: pieces[i].text <= pieces[i].sep <= pieces[i].next <= |s|
  }

  /** Reading a layout off piece by piece: the pieces lie within the input one after the
      other, and each statement spells the text of its piece. */
  lemma {:induction false} LayoutSlices(s: string, pos: nat, statements: seq<seq<Token>>, pieces: seq<Piece>)
    requires pos <= |s| && Layout(s, pos, statements, pieces)
    ensures |pieces| == |statements| + 1 && InBounds(s, pieces) && pos <= pieces[0].text
    ensures forall i | 0 <= i < |statements| :: pieces[i].next <= pieces[i + 1].text
    ensures forall i | 0 <= i < |statements| :: Flatten(statements[i]) == s[pieces[i].text..pieces[i].sep]
    decreases |statements|
  {
    if statements != [] {
      LayoutSlices(s, pieces[0].next, statements[1..], pieces[1..]);
      assert forall i | 1 <= i < |statements| :: statements[i] == statements[1..][i - 1];
      assert forall i | 1 <= i < |pieces| :: pieces[i] == pieces[1..][i - 1];
    }
  }

  /** Round trip of `tokenize()`: the statements are the input read in order, less white
      space and separators, up to the end of input or an empty statement. */
  lemma TokenizationLayout(s: string)
    requires NoRepeatedTag(s)
    ensures Tokenization(s).Ok? ==> exists pieces :: Layout(s, 0, Tokenization(s).value, pieces)
  {
    StatementsLayout(s, 0, []);
    assert Tokenization(s).Ok? ==> Tokenization(s).value[0..] == Tokenization(s).value;
  }

  /** `mindplay\sql_parser\SQLTokenizer`: a cursor over the input. */
  class SQLTokenizer {
    const cursor: Cursor

    ghost predicate Valid()
      reads this, cursor
    {
      cursor.Valid()
    }

    constructor (input: string)
      ensures Valid() && fresh(cursor)
      ensures cursor.input == input && cursor.offset == 0
    {
      cursor := new Cursor(input);
    }

    /** `SQLTokenizer::tokenize($input)` */
    static method Tokenize(input: string) returns (r: Result<seq<seq<Token>>>)
      ensures r == Tokenization(input)
    {
      var parser := new SQLTokenizer(input);
      r := parser.Statements();
    }

    /** `statements()` */
    method Statements() returns (r: Result<seq<seq<Token>>>)
      requires Valid()
      modifies cursor
      ensures r == StatementsFrom(cursor.input, old(cursor.offset), [])
    {
      ghost var spec := StatementsFrom(cursor.input, cursor.offset, []);
      var statements: seq<seq<Token>> := [];
      while true
        invariant Valid()
        invariant forall i | 0 <= i < |statements| :: KeptStatement(statements[i])
        invariant spec == StatementsFrom(cursor.input, cursor.offset, statements)
        decreases |cursor.input| - cursor.offset
      {
        var result := Statement();
        match result
        case NoMatch => return Ok(statements);
        case Failed(e) => return Err(e);
        case Match(tokens, _) =>
          if tokens == [] {
            return Ok(statements);
          }
          statements := statements + [tokens];
      }
    }

    /** `statement()` */
    method Statement() returns (r: Scan<seq<Token>>)
      requires Valid()
      modifies cursor
      ensures Valid() && r == StatementAt(cursor.input, old(cursor.offset))
      ensures r.Match? ==> cursor.offset == r.next
    {
      var _ := cursor.ConsumeWhile(IsSpace);
      var eof := cursor.IsEOF();
      if eof {
        return NoMatch;
      }
      ghost var spec := StatementRest(cursor.input, cursor.offset, []);
      var tokens: seq<Token> := [];
      while true
        invariant Valid()
        invariant forall i | 0 <= i < |tokens| :: Kept(tokens[i])
        invariant spec == StatementRest(cursor.input, cursor.offset, tokens)
        decreases |cursor.input| - cursor.offset
      {
        var token := Token();
        if token.Failed? {
          return Failed(token.error);
        }
        if !Truthy(token.value) {
          return Match(tokens, cursor.offset);
        }
        tokens := tokens + [token.value];
      }
    }

    /** `token()` */
    method Token() returns (r: Scan<Token>)
      requires Valid()
      modifies cursor
      ensures Valid() && r == TokenAt(cursor.input, old(cursor.offset))
      ensures r.Match? ==> cursor.offset == r.next
      decreases |cursor.input| - cursor.offset, 1
    {
      var lead := Leading();
      if !lead.NoMatch? {
        return AsAtom(lead);
      }
      r := Grouped();
      if !r.NoMatch? {
        return;
      }
      var trail := cursor.TrailingAtom();
      if !trail.NoMatch? {
        return AsAtom(trail);
      }
      var eof := cursor.IsEOF();
      if eof {
        return Match(EndMarker, cursor.offset);
      }
      var terminator := cursor.ConsumeLiteral(";");
      if terminator.Match? {
        return Match(EndMarker, cursor.offset);
      }
      return Failed(Error(cursor.offset, ExpectedSqlToken));
    }

    /** The rules of `token()` before `grouped()`. */
    method Leading() returns (r: Scan<string>)
      requires Valid()
      modifies cursor
      ensures Valid() && r == LeadingAtom(cursor.input, old(cursor.offset))
      ensures r.Match? ==> cursor.offset == r.next
      ensures r.NoMatch? ==> cursor.offset == old(cursor.offset)
    {
      r := cursor.ConsumeRun(IsWordChar);
      if r.Match? {
        return;
      }
      r := cursor.ConsumeRun(IsSpace);
      if r.Match? {
        return;
      }
      r := cursor.Comment();
      if !r.NoMatch? {
        return;
      }
      r := cursor.ConsumeOneOf(Operators);
      if r.Match? {
        return;
      }
      r := cursor.Quoted();
    }

    /** `grouped()` */
    method Grouped() returns (r: Scan<Token>)
      requires Valid()
      modifies cursor
      ensures Valid() && r == GroupAt(cursor.input, old(cursor.offset))
      ensures r.Match? ==> cursor.offset == r.next
      ensures r.NoMatch? ==> cursor.offset == old(cursor.offset)
      decreases |cursor.input| - cursor.offset, 0
    {
      var opening := cursor.ConsumeOneOf({'(', '{', '['});
      if opening.NoMatch? {
        return NoMatch;
      }
      var start := cursor.offset - 1;
      assert opening.value == [cursor.input[start]] == cursor.input[start..cursor.offset];
      assert Flatten([Atom(opening.value)]) == opening.value by {
        FlattenAppend([], Atom(opening.value));
        assert [] + [Atom(opening.value)] == [Atom(opening.value)];
      }
      r := GroupedLoop(start, Mate(opening.value[0]), [Atom(opening.value)]);
    }

    /** The `while (true)` loop of `grouped()` for the opening bracket at `start`, with the
        tokens `items` collected so far and the closing bracket `closing` it waits for. */
    method GroupedLoop(start: nat, closing: char, items: seq<Token>) returns (r: Scan<Token>)
      requires Valid() && start < cursor.offset && IsOpener(cursor.input[start])
      requires closing == Mate(cursor.input[start])
      requires |items| >= 1 && items[0] == Atom([cursor.input[start]])
      requires forall i | 0 <= i < |items| :: WellFormed(items[i])
      requires NoRepeatedTag(cursor.input) ==> Flatten(items) == cursor.input[start..cursor.offset]
      modifies cursor
      ensures Valid() && r == GroupRest(cursor.input, start, old(cursor.offset), items)
      ensures r.Match? ==> cursor.offset == r.next
      decreases |cursor.input| - cursor.offset, 2
    {
      var tokens := items;
      while true
        invariant Valid() && start < cursor.offset
        invariant |tokens| >= 1 && tokens[0] == Atom([cursor.input[start]])
        invariant forall i | 0 <= i < |tokens| :: WellFormed(tokens[i])
        invariant NoRepeatedTag(cursor.input) ==> Flatten(tokens) == cursor.input[start..cursor.offset]
        invariant GroupRest(cursor.input, start, old(cursor.offset), items) == GroupRest(cursor.input, start, cursor.offset, tokens)
        decreases |cursor.input| - cursor.offset
      {
        var closes := cursor.Is([closing]);
        if closes {
          tokens := tokens + [Atom([closing])];
          cursor.offset := cursor.offset + 1;
          return Match(Group(tokens), cursor.offset);
        }
        ghost var p := cursor.offset;
        var token := Token();
        if token.Failed? {
          return token;
        }
        if token.value == EndMarker {
          return Failed(Error(cursor.offset, ExpectedGroupEnd));
        }
        FlattenAppend(tokens, token.value);
        SliceJoin(cursor.input, start, p, cursor.offset);
        tokens := tokens + [token.value];
      }
    }
  }
}
