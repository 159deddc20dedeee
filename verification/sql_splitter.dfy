// The statement splitter (`mindplay\sql_parser\SQLSplitter`): it tokenizes with
// `SQLTokenizer`, optionally removes comment atoms at every depth, flattens each statement
// back to text, trims it and drops the texts PHP reads as false.
module SQLSplitter {
  import opened Tokens
  import opened Lexer
  import SqlParser

  // `isComment($token)`: the first two characters (`substr($token, 0, 2)`) are `--` or `/*`.
  function IsComment(text: string): (b: bool)
    ensures b <==> StartsWith(text, 0, "--") || StartsWith(text, 0, "/*")
  {
    var start := if |text| < 2 then text else text[..2];
    start == "--" || start == "/*"
  }

  /** No comment atom at any depth of `t`. */
  ghost predicate CommentFree(t: Token)
    decreases t
  {
    match t
    case Atom(text) => !IsComment(text)
    case Group(items) => forall i | 0 <= i < |items| :: CommentFree(items[i])
  }

  ghost predicate AllCommentFree(ts: seq<Token>) {
    forall i | 0 <= i < |ts| :: CommentFree(ts[i])
  }

  /** `stripComments($tokens)`: the comment atoms are dropped, every group is kept and
      stripped in turn. */
  function StripComments(ts: seq<Token>): (r: seq<Token>)
    ensures AllCommentFree(r)
    ensures |r| <= |ts|
    decreases ts
  {
    if ts == [] then []
    else StripComments(ts[..|ts| - 1]) + StripToken(ts[|ts| - 1])
  }

  /** One step of the loop of `stripComments`: what the token contributes to the result. */
  function StripToken(t: Token): (r: seq<Token>)
    ensures |r| <= 1 && AllCommentFree(r)
    ensures r == [] <==> t.Atom? && IsComment(t.text)
    ensures t.Atom? && !IsComment(t.text) ==> r == [t]
    ensures t.Group? ==> r == [Group(StripComments(t.items))]
    decreases t
  {
    match t
    case Atom(text) => if IsComment(text) then [] else [t]
    case Group(items) => [Group(StripComments(items))]
  }

  /** Stripping distributes over concatenation: the relative order of the tokens is kept. */
  lemma {:induction false} StripConcat(a: seq<Token>, b: seq<Token>)
    ensures StripComments(a + b) == StripComments(a) + StripComments(b)
    decreases |b|
  {
    if b == [] {
      assert a + b == a;
    } else {
      var b' := b[..|b| - 1];
      assert (a + b)[..|a + b| - 1] == a + b';
      StripConcat(a, b');
      assert b[..|b| - 1] == b';
    }
  }

  /** A token sequence with no comment atom at any depth is left as it is. */
  lemma {:induction false} StripCommentFree(ts: seq<Token>)
    requires AllCommentFree(ts)
    ensures StripComments(ts) == ts
    decreases ts
  {
    if ts != [] {
      StripCommentFree(ts[..|ts| - 1]);
      StripTokenCommentFree(ts[|ts| - 1]);
    }
  }

  lemma {:induction false} StripTokenCommentFree(t: Token)
    requires CommentFree(t)
    ensures StripToken(t) == [t]
    decreases t
  {
    if t.Group? {
      StripCommentFree(t.items);
    }
  }

  /** Stripping twice is stripping once. */
  lemma StripIdempotent(ts: seq<Token>)
    ensures StripComments(StripComments(ts)) == StripComments(ts)
  {
    StripCommentFree(StripComments(ts));
  }

  /** `implode` is depth-first concatenation with no separator: the text of a concatenation
      is the concatenation of the texts. */
  lemma {:induction false} FlattenConcat(a: seq<Token>, b: seq<Token>)
    ensures Flatten(a + b) == Flatten(a) + Flatten(b)
    decreases |b|
  {
    if b == [] {
      assert a + b == a;
    } else {
      var b' := b[..|b| - 1];
      assert (a + b)[..|a + b| - 1] == a + b';
      FlattenConcat(a, b');
      assert b[..|b| - 1] == b';
    }
  }

  /** The atoms of `ts` at every depth, read depth first from the front: an independent
      account of what `implode` and `stripComments` see. */
  function Atoms(ts: seq<Token>): (r: seq<string>)
    decreases ts
  {
    if ts == [] then [] else AtomsOf(ts[0]) + Atoms(ts[1..])
  }

  function AtomsOf(t: Token): (r: seq<string>)
    decreases t
  {
    match t
    case Atom(text) => [text]
    case Group(items) => Atoms(items)
  }

  /** The texts joined, front to back. */
  function Concat(texts: seq<string>): (r: string)
    decreases texts
  {
    if texts == [] then "" else texts[0] + Concat(texts[1..])
  }

  /** The texts that are not comments, in order. */
  function DropComments(texts: seq<string>): (r: seq<string>)
    decreases texts
  {
    if texts == [] then [] else (if IsComment(texts[0]) then [] else [texts[0]]) + DropComments(texts[1..])
  }

  lemma {:induction false} AtomsConcat(a: seq<Token>, b: seq<Token>)
    ensures Atoms(a + b) == Atoms(a) + Atoms(b)
    decreases |a|
  {
    if a != [] {
      assert (a + b)[1..] == a[1..] + b;
      AtomsConcat(a[1..], b);
    } else {
      assert a + b == b;
    }
  }

  lemma {:induction false} ConcatConcat(a: seq<string>, b: seq<string>)
    ensures Concat(a + b) == Concat(a) + Concat(b)
    decreases |a|
  {
    if a != [] {
      assert (a + b)[1..] == a[1..] + b;
      ConcatConcat(a[1..], b);
    } else {
      assert a + b == b;
    }
  }

  lemma {:induction false} DropConcat(a: seq<string>, b: seq<string>)
    ensures DropComments(a + b) == DropComments(a) + DropComments(b)
    decreases |a|
  {
    if a != [] {
      assert (a + b)[1..] == a[1..] + b;
      DropConcat(a[1..], b);
    } else {
      assert a + b == b;
    }
  }

  /** Removing the last token takes its atoms off the end. */
  lemma {:induction false} AtomsSnoc(ts: seq<Token>)
    requires ts != []
    ensures Atoms(ts) == Atoms(ts[..|ts| - 1]) + AtomsOf(ts[|ts| - 1])
  {
    var last := ts[|ts| - 1];
    AtomsConcat(ts[..|ts| - 1], [last]);
    assert ts[..|ts| - 1] + [last] == ts;
    assert Atoms([last]) == AtomsOf(last) + Atoms([]);
  }

  /** `implode` joins the atoms read depth first: the text of tokens is their atoms joined. */
  lemma {:induction false} FlattenAtoms(ts: seq<Token>)
    ensures Flatten(ts) == Concat(Atoms(ts))
    decreases ts, 1
  {
    if ts != [] {
      var init, last := ts[..|ts| - 1], ts[|ts| - 1];
      AtomsSnoc(ts);
      FlattenAtoms(init);
      FlattenTokenAtoms(last);
      ConcatConcat(Atoms(init), AtomsOf(last));
    }
  }

  lemma {:induction false} FlattenTokenAtoms(t: Token)
    ensures FlattenToken(t) == Concat(AtomsOf(t))
    decreases t, 0
  {
    match t
    case Atom(text) =>
      assert Concat([text]) == text + Concat([]);
    case Group(items) =>
      FlattenAtoms(items);
  }

  /** `stripComments` drops exactly the comment atoms, at every depth, and keeps the order
      of the others. */
  lemma {:induction false} StripAtoms(ts: seq<Token>)
    ensures Atoms(StripComments(ts)) == DropComments(Atoms(ts))
    decreases ts, 1
  {
    if ts != [] {
      var init, last := ts[..|ts| - 1], ts[|ts| - 1];
      AtomsSnoc(ts);
      StripAtoms(init);
      StripTokenAtoms(last);
      AtomsConcat(StripComments(init), StripToken(last));
      DropConcat(Atoms(init), AtomsOf(last));
    }
  }

  lemma {:induction false} StripTokenAtoms(t: Token)
    ensures Atoms(StripToken(t)) == DropComments(AtomsOf(t))
    decreases t, 0
  {
    match t
    case Atom(text) =>
      assert DropComments([text]) == (if IsComment(text) then [] else [text]) + DropComments([]);
      if !IsComment(text) {
        assert Atoms([t]) == AtomsOf(t) + Atoms([]);
      }
    case Group(items) =>
      StripAtoms(items);
      var g := Group(StripComments(items));
      assert Atoms([g]) == AtomsOf(g) + Atoms([]);
  }

  /** The text of stripped tokens: their atoms that are not comments, joined in order. */
  lemma {:induction false} StrippedText(ts: seq<Token>)
    ensures Flatten(StripComments(ts)) == Concat(DropComments(Atoms(ts)))
  {
    FlattenAtoms(StripComments(ts));
    StripAtoms(ts);
  }

  /** `array_filter($statements)`: the texts PHP reads as true, in their order. */
  function Filter(texts: seq<string>): (r: seq<string>)
    ensures |r| <= |texts|
    ensures forall i | 0 <= i < |r| :: TruthyText(r[i])
    decreases texts
  {
    if texts == [] then []
    else
      var last := texts[|texts| - 1];
      Filter(texts[..|texts| - 1]) + if TruthyText(last) then [last] else []
  }

  /** A text is in the filtered list exactly when it is in the list and PHP reads it as true. */
  lemma {:induction false} FilterMembers(texts: seq<string>, t: string)
    ensures t in Filter(texts) <==> t in texts && TruthyText(t)
    decreases texts
  {
    if texts != [] {
      FilterMembers(texts[..|texts| - 1], t);
      assert texts == texts[..|texts| - 1] + [texts[|texts| - 1]];
    }
  }

  /** `trim()` leaves no white space at either end. */
  predicate Trimmed(t: string) {
    t == [] || (!IsTrimmed(t[0]) && !IsTrimmed(t[|t| - 1]))
  }

  /** Every filtered text is one of the texts, so it is trimmed when they all are. */
  lemma {:induction false} FilterTrimmed(texts: seq<string>)
    requires forall i | 0 <= i < |texts| :: Trimmed(texts[i])
    ensures forall i | 0 <= i < |Filter(texts)| :: Trimmed(Filter(texts)[i])
    decreases texts
  {
    if texts != [] {
      FilterTrimmed(texts[..|texts| - 1]);
    }
  }

  /** Filtering distributes over concatenation. */
  lemma {:induction false} FilterConcat(a: seq<string>, b: seq<string>)
    ensures Filter(a + b) == Filter(a) + Filter(b)
    decreases |b|
  {
    if b == [] {
      assert a + b == a;
    } else {
      var b' := b[..|b| - 1];
      assert (a + b)[..|a + b| - 1] == a + b';
      FilterConcat(a, b');
      assert b[..|b| - 1] == b';
    }
  }

  /** `stripComments` applied to the list of statements: each statement is an array, so
      each is stripped as a group would be. */
  function StripStatements(statements: seq<seq<Token>>): (r: seq<seq<Token>>)
    ensures |r| == |statements|
    ensures forall i | 0 <= i < |r| :: r[i] == StripComments(statements[i]) && AllCommentFree(r[i])
  {
    seq(|statements|, i requires 0 <= i < |statements| => StripComments(statements[i]))
  }

  /** The text `split` builds for one statement: `trim(implode($token))`. */
  function StatementText(statement: seq<Token>): (r: string)
    ensures Trimmed(r)
  {
    Trim(Flatten(statement))
  }

  /** The texts of the statements, in order. */
  function Texts(statements: seq<seq<Token>>): (r: seq<string>)
    ensures |r| == |statements|
    ensures forall i | 0 <= i < |r| :: r[i] == StatementText(statements[i])
  {
    if statements == [] then []
    else Texts(statements[..|statements| - 1]) + [StatementText(statements[|statements| - 1])]
  }

  /** What `split` makes of the statements the tokenizer returned: the non-empty trimmed
      texts, in order, after the comments are stripped when `stripComments` is set. */
  function SplitTexts(statements: seq<seq<Token>>, stripComments: bool): (r: seq<string>)
    ensures |r| <= |statements|
    ensures forall i | 0 <= i < |r| :: TruthyText(r[i]) && Trimmed(r[i])
  {
    var texts := Texts(if stripComments then StripStatements(statements) else statements);
    FilterTrimmed(texts);
    Filter(texts)
  }

  /** A statement as `split` reads it: stripped of its comments when `stripComments` is set. */
  function Prepared(statement: seq<Token>, stripComments: bool): seq<Token> {
    if stripComments then StripComments(statement) else statement
  }

  /** A text is in what `split` returns exactly when it is the text of one of the
      statements and PHP reads it as true. */
  lemma {:induction false} SplitMembers(statements: seq<seq<Token>>, stripComments: bool, t: string)
    ensures t in SplitTexts(statements, stripComments) <==>
      TruthyText(t) && exists i | 0 <= i < |statements| :: t == StatementText(Prepared(statements[i], stripComments))
  {
    var prepared := if stripComments then StripStatements(statements) else statements;
    var texts := Texts(prepared);
    FilterMembers(texts, t);
    if t in texts {
      var i :| 0 <= i < |texts| && texts[i] == t;
      assert prepared[i] == Prepared(statements[i], stripComments);
    }
    if exists i | 0 <= i < |statements| :: t == StatementText(Prepared(statements[i], stripComments)) {
      var i :| 0 <= i < |statements| && t == StatementText(Prepared(statements[i], stripComments));
      assert prepared[i] == Prepared(statements[i], stripComments);
      assert texts[i] == t;
    }
  }

  /** The texts of two lists of statements, one after the other. */
  lemma TextsConcat(a: seq<seq<Token>>, b: seq<seq<Token>>)
    ensures Texts(a + b) == Texts(a) + Texts(b)
  {
  }

  lemma StripStatementsConcat(a: seq<seq<Token>>, b: seq<seq<Token>>)
    ensures StripStatements(a + b) == StripStatements(a) + StripStatements(b)
  {
  }

  /** `split` keeps the order of the statements: the texts of two lists of statements read
      one after the other are the texts of the first then those of the second. */
  lemma {:induction false} SplitConcat(a: seq<seq<Token>>, b: seq<seq<Token>>, stripComments: bool)
    ensures SplitTexts(a + b, stripComments) == SplitTexts(a, stripComments) + SplitTexts(b, stripComments)
  {
    StripStatementsConcat(a, b);
    if stripComments {
      TextsConcat(StripStatements(a), StripStatements(b));
      FilterConcat(Texts(StripStatements(a)), Texts(StripStatements(b)));
    } else {
      TextsConcat(a, b);
      FilterConcat(Texts(a), Texts(b));
    }
  }

  /** One statement yields its trimmed text, or nothing when PHP reads that as false. */
  lemma {:induction false} SplitOne(statement: seq<Token>, stripComments: bool)
    ensures var t := StatementText(Prepared(statement, stripComments));
      SplitTexts([statement], stripComments) == if TruthyText(t) then [t] else []
  {
    var texts := Texts(if stripComments then StripStatements([statement]) else [statement]);
    assert texts == [StatementText(Prepared(statement, stripComments))];
    assert texts[..0] == [];
  }

  /** `SQLSplitter::split($sql, $strip_comments)`: a tokenizer failure is the result;
      `split` adds no failure of its own. */
  function Splitting(sql: string, stripComments: bool): (r: Result<seq<string>>)
    ensures r.Err? <==> SqlParser.Tokenization(sql).Err?
    ensures r.Err? ==> r.error == SqlParser.Tokenization(sql).error
  {
    match SqlParser.Tokenization(sql)
    case Err(e) => Err(e)
    case Ok(statements) => Ok(SplitTexts(statements, stripComments))
  }

  /** The trimmed text of each of the first `n` pieces of a layout. */
  ghost function Slices(s: string, pieces: seq<SqlParser.Piece>, n: nat): (r: seq<string>)
    requires n <= |pieces| && SqlParser.InBounds(s, pieces)
    ensures |r| == n
  {
    seq(n, i requires 0 <= i < n => Trim(s[pieces[i].text..pieces[i].sep]))
  }

  /** Round trip of `split` with comments kept: the texts are the stretches of the input
      between separators, in order, trimmed, less those PHP reads as false. */
  lemma {:induction false} SplitSlices(sql: string)
    requires NoRepeatedTag(sql)
    ensures var tokens := SqlParser.Tokenization(sql);
      tokens.Ok? ==> exists pieces: seq<SqlParser.Piece> | && SqlParser.Layout(sql, 0, tokens.value, pieces)
                                                           && SqlParser.InBounds(sql, pieces) && |tokens.value| < |pieces| ::
                       Splitting(sql, false) == Ok(Filter(Slices(sql, pieces, |tokens.value|)))
  {
    SqlParser.TokenizationLayout(sql);
    var tokens := SqlParser.Tokenization(sql);
    if tokens.Ok? {
      var statements := tokens.value;
      var pieces: seq<SqlParser.Piece> :| SqlParser.Layout(sql, 0, statements, pieces);
      SqlParser.LayoutSlices(sql, 0, statements, pieces);
      assert Texts(statements) == Slices(sql, pieces, |statements|);
    }
  }

  /** The text of each statement once its comments are stripped: its atoms that are not
      comments, joined and trimmed. */
  ghost function CommentFreeTexts(statements: seq<seq<Token>>): (r: seq<string>)
    ensures |r| == |statements|
  {
    seq(|statements|, i requires 0 <= i < |statements| => Trim(Concat(DropComments(Atoms(statements[i])))))
  }

  lemma {:induction false} TextsStripped(statements: seq<seq<Token>>)
    ensures Texts(StripStatements(statements)) == CommentFreeTexts(statements)
  {
    forall i | 0 <= i < |statements|
      ensures StatementText(StripComments(statements[i])) == CommentFreeTexts(statements)[i]
    {
      StrippedText(statements[i]);
    }
  }

  /** Round trip of `split` with comments stripped: each statement's atoms joined are its
      stretch of the input, and its text is the atoms that are not comments, joined and
      trimmed. */
  lemma {:induction false} SplitStrippedSlices(sql: string)
    requires NoRepeatedTag(sql)
    ensures var tokens := SqlParser.Tokenization(sql);
      tokens.Ok? ==> exists pieces: seq<SqlParser.Piece> | && SqlParser.Layout(sql, 0, tokens.value, pieces)
                                                           && SqlParser.InBounds(sql, pieces) && |tokens.value| < |pieces| ::
                       && (forall i | 0 <= i < |tokens.value| :: Concat(Atoms(tokens.value[i])) == sql[pieces[i].text..pieces[i].sep])
                       && Splitting(sql, true) == Ok(Filter(CommentFreeTexts(tokens.value)))
  {
    SqlParser.TokenizationLayout(sql);
    var tokens := SqlParser.Tokenization(sql);
    if tokens.Ok? {
      var statements := tokens.value;
      var pieces: seq<SqlParser.Piece> :| SqlParser.Layout(sql, 0, statements, pieces);
      SqlParser.LayoutSlices(sql, 0, statements, pieces);
      forall i | 0 <= i < |statements|
        ensures Concat(Atoms(statements[i])) == sql[pieces[i].text..pieces[i].sep]
      {
        FlattenAtoms(statements[i]);
      }
      TextsStripped(statements);
    }
  }

  /** Stripping one more token appends what that token contributes. */
  lemma {:induction false} StripAppend(ts: seq<Token>, t: Token)
    ensures StripComments(ts + [t]) == StripComments(ts) + StripToken(t)
  {
    assert (ts + [t])[..|ts|] == ts;
  }

  /** An atom opened by `--` is a comment and is dropped. */
  lemma CommentAtom(text: string)
    requires |text| >= 2 && text[0] == '-' && text[1] == '-'
    ensures StripToken(Atom(text)) == []
  {
    assert text[..2] == "--";
  }

  /** An atom whose first character opens no comment is kept. */
  lemma PlainAtom(text: string)
    requires |text| >= 1 && text[0] != '-' && text[0] != '/'
    ensures StripToken(Atom(text)) == [Atom(text)]
  {
    if |text| >= 2 {
      assert text[..2][0] == text[0];
    }
  }

  /** The input of the comment examples of `split`. */
  /** The first statement `SQLTokenizer` makes of `-- one\nSELECT -- two\n1; -- three\n-- four`,
      stripped of its comments. */
  lemma FirstExampleStripped()
    ensures StripComments([Atom("-- one"), Atom("\n"), Atom("SELECT"), Atom(" "), Atom("-- two"), Atom("\n"), Atom("1")]) == [Atom("\n"), Atom("SELECT"), Atom(" "), Atom("\n"), Atom("1")]
  {
    var p0: seq<Token> := [];
    var p1 := p0 + [Atom("-- one")];
    StripAppend(p0, Atom("-- one"));
    CommentAtom("-- one");
    var p2 := p1 + [Atom("\n")];
    StripAppend(p1, Atom("\n"));
    PlainAtom("\n");
    var p3 := p2 + [Atom("SELECT")];
    StripAppend(p2, Atom("SELECT"));
    PlainAtom("SELECT");
    var p4 := p3 + [Atom(" ")];
    StripAppend(p3, Atom(" "));
    PlainAtom(" ");
    var p5 := p4 + [Atom("-- two")];
    StripAppend(p4, Atom("-- two"));
    CommentAtom("-- two");
    var p6 := p5 + [Atom("\n")];
    StripAppend(p5, Atom("\n"));
    var p7 := p6 + [Atom("1")];
    StripAppend(p6, Atom("1"));
    PlainAtom("1");
    assert StripComments(p7) == [Atom("\n"), Atom("SELECT"), Atom(" "), Atom("\n"), Atom("1")];
    assert p7 == [Atom("-- one"), Atom("\n"), Atom("SELECT"), Atom(" "), Atom("-- two"), Atom("\n"), Atom("1")];
  }

  /** The text of that statement as written. */
  lemma FirstExampleText()
    ensures Flatten([Atom("-- one"), Atom("\n"), Atom("SELECT"), Atom(" "), Atom("-- two"), Atom("\n"), Atom("1")]) == "-- one\nSELECT -- two\n1"
  {
    var front := [Atom("-- one"), Atom("\n"), Atom("SELECT"), Atom(" ")];
    var back := [Atom("-- two"), Atom("\n"), Atom("1")];
    FirstExampleFront();
    FirstExampleBack();
    FlattenConcat(front, back);
    assert front + back == [Atom("-- one"), Atom("\n"), Atom("SELECT"), Atom(" "), Atom("-- two"), Atom("\n"), Atom("1")];
    assert "-- one\nSELECT " + "-- two\n1" == "-- one\nSELECT -- two\n1";
  }

  lemma FirstExampleFront()
    ensures Flatten([Atom("-- one"), Atom("\n"), Atom("SELECT"), Atom(" ")]) == "-- one\nSELECT "
  {
    var p0: seq<Token> := [];
    var p1 := p0 + [Atom("-- one")];
    FlattenAppend(p0, Atom("-- one"));
    var p2 := p1 + [Atom("\n")];
    FlattenAppend(p1, Atom("\n"));
    var p3 := p2 + [Atom("SELECT")];
    FlattenAppend(p2, Atom("SELECT"));
    var p4 := p3 + [Atom(" ")];
    FlattenAppend(p3, Atom(" "));
    assert Flatten(p4) == "-- one" + "\n" + "SELECT" + " ";
    assert p4 == [Atom("-- one"), Atom("\n"), Atom("SELECT"), Atom(" ")];
  }

  lemma FirstExampleBack()
    ensures Flatten([Atom("-- two"), Atom("\n"), Atom("1")]) == "-- two\n1"
  {
    var p0: seq<Token> := [];
    var p1 := p0 + [Atom("-- two")];
    FlattenAppend(p0, Atom("-- two"));
    var p2 := p1 + [Atom("\n")];
    FlattenAppend(p1, Atom("\n"));
    var p3 := p2 + [Atom("1")];
    FlattenAppend(p2, Atom("1"));
    assert Flatten(p3) == "-- two" + "\n" + "1";
    assert p3 == [Atom("-- two"), Atom("\n"), Atom("1")];
  }

  /** The text of that statement once stripped of its comments. */
  lemma FirstExampleStrippedText()
    ensures Flatten([Atom("\n"), Atom("SELECT"), Atom(" "), Atom("\n"), Atom("1")]) == "\nSELECT \n1"
  {
    var p0: seq<Token> := [];
    var p1 := p0 + [Atom("\n")];
    FlattenAppend(p0, Atom("\n"));
    var p2 := p1 + [Atom("SELECT")];
    FlattenAppend(p1, Atom("SELECT"));
    var p3 := p2 + [Atom(" ")];
    FlattenAppend(p2, Atom(" "));
    var p4 := p3 + [Atom("\n")];
    FlattenAppend(p3, Atom("\n"));
    var p5 := p4 + [Atom("1")];
    FlattenAppend(p4, Atom("1"));
    assert Flatten(p5) == "\n" + "SELECT" + " " + "\n" + "1";
    assert p5 == [Atom("\n"), Atom("SELECT"), Atom(" "), Atom("\n"), Atom("1")];
  }

  /** The second statement of that input, stripped of its comments. */
  lemma SecondExampleStripped()
    ensures StripComments([Atom("-- three"), Atom("\n"), Atom("-- four")]) == [Atom("\n")]
  {
    var p0: seq<Token> := [];
    var p1 := p0 + [Atom("-- three")];
    StripAppend(p0, Atom("-- three"));
    CommentAtom("-- three");
    var p2 := p1 + [Atom("\n")];
    StripAppend(p1, Atom("\n"));
    PlainAtom("\n");
    var p3 := p2 + [Atom("-- four")];
    StripAppend(p2, Atom("-- four"));
    CommentAtom("-- four");
    assert StripComments(p3) == [Atom("\n")];
    assert p3 == [Atom("-- three"), Atom("\n"), Atom("-- four")];
  }

  /** The text of the second statement as written. */
  lemma SecondExampleText()
    ensures Flatten([Atom("-- three"), Atom("\n"), Atom("-- four")]) == "-- three\n-- four"
  {
    var p0: seq<Token> := [];
    var p1 := p0 + [Atom("-- three")];
    FlattenAppend(p0, Atom("-- three"));
    var p2 := p1 + [Atom("\n")];
    FlattenAppend(p1, Atom("\n"));
    var p3 := p2 + [Atom("-- four")];
    FlattenAppend(p2, Atom("-- four"));
    assert Flatten(p3) == "-- three" + "\n" + "-- four";
    assert p3 == [Atom("-- three"), Atom("\n"), Atom("-- four")];
  }

  /** Stripping a list of two statements strips each of them. */
  lemma StripStatementsPair(a: seq<Token>, b: seq<Token>)
    ensures StripStatements([a, b]) == [StripComments(a), StripComments(b)]
  {
  }

  /** The texts of a list of two statements are their two texts. */
  lemma TextsPair(a: seq<Token>, b: seq<Token>)
    ensures Texts([a, b]) == [StatementText(a), StatementText(b)]
  {
    assert [a][..0] == [];
    assert Texts([a]) == [StatementText(a)];
    assert [a, b][..1] == [a];
    assert Texts([a, b]) == Texts([a]) + [StatementText(b)];
  }

  /** The texts of those two statements once stripped of their comments. */
  lemma StrippedTexts()
    ensures Texts(StripStatements([[Atom("-- one"), Atom("\n"), Atom("SELECT"), Atom(" "), Atom("-- two"), Atom("\n"), Atom("1")], [Atom("-- three"), Atom("\n"), Atom("-- four")]])) == ["SELECT \n1", ""]
  {
    var first := [Atom("-- one"), Atom("\n"), Atom("SELECT"), Atom(" "), Atom("-- two"), Atom("\n"), Atom("1")];
    var second := [Atom("-- three"), Atom("\n"), Atom("-- four")];
    StripStatementsPair(first, second);
    FirstExampleStripped();
    SecondExampleStripped();
    var a := StripComments(first);
    var b := StripComments(second);
    TextsPair(a, b);
    FirstExampleStrippedText();
    TrimStrippedExample();
    TrimBlankExample();
    assert Flatten(b) == "\n" by {
      FlattenAppend([], Atom("\n"));
      assert [] + [Atom("\n")] == b;
    }
    assert StatementText(a) == "SELECT \n1";
    assert StatementText(b) == "";
  }

  /** What `split` makes of those two statements with comments stripped: the second one
      is only white space and is dropped. */
  lemma StrippedExample()
    ensures SplitTexts([[Atom("-- one"), Atom("\n"), Atom("SELECT"), Atom(" "), Atom("-- two"), Atom("\n"), Atom("1")], [Atom("-- three"), Atom("\n"), Atom("-- four")]], true) == ["SELECT \n1"]
  {
    StrippedTexts();
    FilterPair("SELECT \n1", "");
  }

  /** What `split` makes of those two statements with comments kept: both, as written. */
  lemma UnstrippedExample()
    ensures SplitTexts([[Atom("-- one"), Atom("\n"), Atom("SELECT"), Atom(" "), Atom("-- two"), Atom("\n"), Atom("1")], [Atom("-- three"), Atom("\n"), Atom("-- four")]], false) == ["-- one\nSELECT -- two\n1", "-- three\n-- four"]
  {
    var statements := [[Atom("-- one"), Atom("\n"), Atom("SELECT"), Atom(" "), Atom("-- two"), Atom("\n"), Atom("1")], [Atom("-- three"), Atom("\n"), Atom("-- four")]];
    FirstExampleText();
    SecondExampleText();
    TrimFirstExample();
    TrimSecondExample();
    assert Texts(statements) == ["-- one\nSELECT -- two\n1", "-- three\n-- four"];
    FilterPair("-- one\nSELECT -- two\n1", "-- three\n-- four");
  }

  /** A text with no white space at either end is its own trim. */
  lemma TrimUnchanged(t: string)
    requires |t| >= 1 && !IsTrimmed(t[0]) && !IsTrimmed(t[|t| - 1])
    ensures Trim(t) == t
  {
  }

  /** A text with one white space character in front and none at the end loses just that one. */
  lemma TrimOneLeading(t: string)
    requires |t| >= 2 && IsTrimmed(t[0]) && !IsTrimmed(t[1]) && !IsTrimmed(t[|t| - 1])
    ensures Trim(t) == t[1..]
  {
    assert RunEnd(t, 1, IsTrimmed) == 1;
    assert RunEnd(t, 0, IsTrimmed) == 1;
    assert TrimmedEnd(t, 1, |t|) == |t|;
  }

  lemma TrimStrippedExample()
    ensures Trim("\nSELECT \n1") == "SELECT \n1"
  {
    TrimOneLeading("\nSELECT \n1");
    assert "\nSELECT \n1"[1..] == "SELECT \n1";
  }

  lemma TrimBlankExample()
    ensures Trim("\n") == ""
  {
  }

  lemma TrimFirstExample()
    ensures Trim("-- one\nSELECT -- two\n1") == "-- one\nSELECT -- two\n1"
  {
    TrimUnchanged("-- one\nSELECT -- two\n1");
  }

  lemma TrimSecondExample()
    ensures Trim("-- three\n-- four") == "-- three\n-- four"
  {
    TrimUnchanged("-- three\n-- four");
  }

  lemma FilterPair(a: string, b: string)
    ensures Filter([a, b]) == (if TruthyText(a) then [a] else []) + (if TruthyText(b) then [b] else [])
  {
    assert [a, b][..1] == [a];
  }

  /** The `foreach` loop of `split`: the trimmed text of each statement, in order. */
  method StatementTexts(statements: seq<seq<Token>>) returns (texts: seq<string>)
    ensures texts == Texts(statements)
  {
    texts := [];
    for i := 0 to |statements|
      invariant texts == Texts(statements[..i])
    {
      assert statements[..i + 1][..i] == statements[..i];
      texts := texts + [StatementText(statements[i])];
    }
    assert statements[..|statements|] == statements;
  }

  /** `SQLSplitter::split`. */
  method Split(sql: string, stripComments: bool) returns (r: Result<seq<string>>)
    ensures r == Splitting(sql, stripComments)
  {
    var tokens := SqlParser.SQLTokenizer.Tokenize(sql);
    if tokens.Err? {
      return Err(tokens.error);
    }
    var statements := tokens.value;
    if stripComments {
      statements := StripStatements(statements);
    }
    var texts := StatementTexts(statements);
    return Ok(Filter(texts));
  }
}
