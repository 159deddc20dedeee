/** Character classes and the pure scanners both tokenizers share. Each scanner states
    what one `consume(pattern)` call, or one scanning method built from such calls,
    matches at a cursor position; the cursor methods are proved to agree with them. */
module Lexer {
  import opened Tokens

  /** `\w` (no Unicode flag): ASCII letters, digits and underscore. */
  predicate IsWordChar(c: char) {
    ('a' <= c <= 'z') || ('A' <= c <= 'Z') || ('0' <= c <= '9') || c == '_'
  }

  /** `\s`: space, tab, line feed, vertical tab, form feed and carriage return. */
  predicate IsSpace(c: char) {
    c == ' ' || c == '\t' || c == '\n' || c == '\U{0B}' || c == '\U{0C}' || c == '\r'
  }

  predicate IsNewline(c: char) {
    c == '\r' || c == '\n'
  }

  predicate NotNewline(c: char) {
    !IsNewline(c)
  }

  /** `[ ]`: the plain space the `DELIMITER` directive skips. */
  predicate IsBlank(c: char) {
    c == ' '
  }

  /** The characters PHP's `trim()` removes by default. */
  predicate IsTrimmed(c: char) {
    c == ' ' || c == '\t' || c == '\n' || c == '\r' || c == '\0' || c == '\U{0B}'
  }

  /** `is($exact)`: the input continues with `t` at `pos`. */
  predicate StartsWith(s: string, pos: nat, t: string) {
    pos + |t| <= |s| && s[pos..pos + |t|] == t
  }

  /** End of the longest run of characters satisfying `p` that starts at `pos`. */
  function RunEnd(s: string, pos: nat, p: char -> bool): (e: nat)
    requires pos <= |s|
    ensures pos <= e <= |s|
    ensures e == |s| || !p(s[e])
    decreases |s| - pos
  {
    if pos == |s| || !p(s[pos]) then pos else RunEnd(s, pos + 1, p)
  }

  /** Every character of the run satisfies `p`. */
  lemma {:induction false} RunEndAll(s: string, pos: nat, p: char -> bool)
    requires pos <= |s|
    ensures forall i | pos <= i < RunEnd(s, pos, p) :: p(s[i])
    decreases |s| - pos
  {
    if pos < |s| && p(s[pos]) {
      RunEndAll(s, pos + 1, p);
    }
  }

  /** A run that ends at a character outside the class is the whole run. */
  lemma {:induction false} RunEndAt(s: string, pos: nat, p: char -> bool, e: nat)
    requires pos <= e <= |s|
    requires forall i | pos <= i < e :: p(s[i])
    requires e == |s| || !p(s[e])
    ensures RunEnd(s, pos, p) == e
    decreases e - pos
  {
    if pos < e {
      RunEndAt(s, pos + 1, p, e);
    }
  }

  /** The first position at or after `from` where `t` occurs: what a lazy `.*?t` stops at. */
  function Find(s: string, from: nat, t: string): (r: Option<nat>)
    requires from <= |s|
    ensures r.Some? ==> from <= r.value && StartsWith(s, r.value, t)
    decreases |s| - from
  {
    if StartsWith(s, from, t) then Some(from)
    else if from == |s| then None
    else Find(s, from + 1, t)
  }

  /** `Find` stops at the first occurrence, and finds nothing only when there is none. */
  lemma {:induction false} FindFirst(s: string, from: nat, t: string)
    requires from <= |s|
    ensures var r := Find(s, from, t);
      && (r.Some? ==> forall i | from <= i < r.value :: !StartsWith(s, i, t))
      && (r.None? ==> forall i | from <= i <= |s| :: !StartsWith(s, i, t))
    decreases |s| - from
  {
    if !StartsWith(s, from, t) && from < |s| {
      FindFirst(s, from + 1, t);
    }
  }

  /** `consume` of `\w+` or `\s+`: the longest non-empty run of characters satisfying `p`. */
  function Run(s: string, pos: nat, p: char -> bool): (r: Scan<string>)
    requires pos <= |s|
    ensures !r.Failed?
    ensures r.Match? <==> pos < |s| && p(s[pos])
    ensures r.Match? ==> pos < r.next <= |s| && r.value == s[pos..r.next]
    ensures r.Match? ==> (forall i | pos <= i < r.next :: p(s[i])) && (r.next == |s| || !p(s[r.next]))
  {
    var e := RunEnd(s, pos, p);
    RunEndAll(s, pos, p);
    if e == pos then NoMatch else Match(s[pos..e], e)
  }

  /** `consume` of a one-character class such as `[({\[]`. */
  function OneOf(s: string, pos: nat, cs: set<char>): (r: Scan<string>)
    requires pos <= |s|
    ensures !r.Failed?
    ensures r.Match? <==> pos < |s| && s[pos] in cs
    ensures r.Match? ==> r.next == pos + 1 && r.value == [s[pos]]
  {
    if pos < |s| && s[pos] in cs then Match(s[pos..pos + 1], pos + 1) else NoMatch
  }

  /** `consume` of a pattern that matches one fixed text. */
  function Literal(s: string, pos: nat, t: string): (r: Scan<string>)
    requires pos <= |s|
    ensures !r.Failed?
    ensures r.Match? <==> StartsWith(s, pos, t)
    ensures r.Match? ==> r.next == pos + |t| <= |s| && r.value == t == s[pos..r.next]
  {
    if StartsWith(s, pos, t) then Match(t, pos + |t|) else NoMatch
  }

  /** `consume` of `@\w+` or `:\w+`: the character `c` followed by at least one word character. */
  function Prefixed(s: string, pos: nat, c: char): (r: Scan<string>)
    requires pos <= |s|
    ensures !r.Failed?
    ensures r.Match? <==> pos + 1 < |s| && s[pos] == c && IsWordChar(s[pos + 1])
    ensures r.Match? ==> pos + 1 < r.next <= |s| && r.value == s[pos..r.next]
    ensures r.Match? ==> (forall i | pos < i < r.next :: IsWordChar(s[i])) && (r.next == |s| || !IsWordChar(s[r.next]))
  {
    if pos < |s| && s[pos] == c then
      var e := RunEnd(s, pos + 1, IsWordChar);
      RunEndAll(s, pos + 1, IsWordChar);
      if e > pos + 1 then Match(s[pos..e], e) else NoMatch
    else NoMatch
  }

  /** `comment()`: a `--` comment up to the line break, or a `/*` comment through the first `*/`. */
  function Comment(s: string, pos: nat): (r: Scan<string>)
    requires pos <= |s|
    ensures r.Match? ==> pos < r.next <= |s| && r.value == s[pos..r.next]
    ensures !StartsWith(s, pos, "--") && !StartsWith(s, pos, "/*") <==> r.NoMatch?
    ensures r.Failed? ==> r.error.reason == ExpectedBlockCommentEnd
    ensures r.Failed? ==> pos < r.error.offset <= |s|
  {
    if StartsWith(s, pos, "--") then
      var e := RunEnd(s, pos + 2, NotNewline);
      Match(s[pos..e], e)
    else if StartsWith(s, pos, "/*") then
      match Find(s, pos + 2, "*/")
      case Some(i) => Match(s[pos..i + 2], i + 2)
      case None => Failed(Error(pos + 2, ExpectedBlockCommentEnd))
    else NoMatch
  }

  /** Only `-` and `/` can start a comment. */
  lemma CommentNone(s: string, pos: nat)
    requires pos < |s| && s[pos] != '-' && s[pos] != '/'
    ensures Comment(s, pos).NoMatch?
  {
    if pos + 2 <= |s| {
      assert s[pos..pos + 2][0] == s[pos];
    }
  }

  /** A `--` comment is never a failure and stops before the first line break. */
  lemma LineComment(s: string, pos: nat)
    requires pos <= |s| && StartsWith(s, pos, "--")
    ensures var r := Comment(s, pos);
      && r.Match?
      && (forall i | pos <= i < r.next :: !IsNewline(s[i]))
      && (r.next == |s| || IsNewline(s[r.next]))
  {
    RunEndAll(s, pos + 2, NotNewline);
  }

  /** A `/*` comment ends at the first `*/` after its opener, and fails exactly when there is none. */
  lemma BlockComment(s: string, pos: nat)
    requires pos <= |s| && StartsWith(s, pos, "/*")
    ensures var r := Comment(s, pos);
      && (r.Match? ==> pos + 4 <= r.next && StartsWith(s, r.next - 2, "*/"))
      && (r.Match? ==> forall i | pos + 2 <= i < r.next - 2 :: !StartsWith(s, i, "*/"))
      && (r.Failed? <==> forall i | pos + 2 <= i <= |s| :: !StartsWith(s, i, "*/"))
      && (r.Failed? ==> r.error == Error(pos + 2, ExpectedBlockCommentEnd))
  {
    FindFirst(s, pos + 2, "*/");
  }

  /** `\$\w*\$`: the tag that opens and closes a dollar-quoted string. */
  ghost predicate IsDollarTag(t: string) {
    && |t| >= 2
    && t[0] == '$' && t[|t| - 1] == '$'
    && forall i | 0 < i < |t| - 1 :: IsWordChar(t[i])
  }

  /** `consume('\$\w*\$')`, as the tag text. */
  function OpeningTag(s: string, pos: nat): (r: Option<string>)
    requires pos <= |s|
    ensures r.Some? ==> StartsWith(s, pos, r.value) && IsDollarTag(r.value)
  {
    if pos < |s| && s[pos] == '$' then
      var e := RunEnd(s, pos + 1, IsWordChar);
      RunEndAll(s, pos + 1, IsWordChar);
      if e < |s| && s[e] == '$' then Some(s[pos..e + 1]) else None
    else None
  }

  /** Every `$\w*$` tag at the cursor is found: the scan is complete as well as sound. */
  lemma OpeningTagComplete(s: string, pos: nat, t: string)
    requires pos <= |s| && StartsWith(s, pos, t) && IsDollarTag(t)
    ensures OpeningTag(s, pos) == Some(t)
  {
    var e := pos + |t| - 1;
    assert forall i | pos + 1 <= i < e :: s[i] == t[i - pos];
    assert s[e] == t[|t| - 1];
    RunEndAt(s, pos + 1, IsWordChar, e);
    assert s[pos..e + 1] == t;
  }

  /** `dollarquoted()`: from an opening `$tag$` through the next occurrence of the same tag.
      A second copy of the tag right after the closing one is consumed too, and dropped. */
  function DollarQuoted(s: string, pos: nat): (r: Scan<string>)
    requires pos <= |s|
    ensures r.NoMatch? <==> OpeningTag(s, pos).None?
    ensures r.Match? ==> pos + 4 <= pos + |r.value| <= r.next <= |s| && r.value == s[pos..pos + |r.value|]
    ensures r.Failed? ==> r.error.reason == ExpectedDollarQuoteEnd
    ensures r.Failed? ==> pos < r.error.offset <= |s|
  {
    match OpeningTag(s, pos)
    case None => NoMatch
    case Some(tag) => DollarQuotedBody(s, pos, tag)
  }

  /** The part of `dollarquoted()` after the opening tag `tag` at `pos`. */
  function DollarQuotedBody(s: string, pos: nat, tag: string): (r: Scan<string>)
    requires pos + |tag| <= |s|
    ensures !r.NoMatch?
    ensures r.Match? ==> pos + 2 * |tag| <= pos + |r.value| <= r.next <= |s| && r.value == s[pos..pos + |r.value|]
    ensures r.Failed? ==> r.error.reason == ExpectedDollarQuoteEnd
    ensures r.Failed? ==> pos + |tag| <= r.error.offset <= |s|
  {
    match Find(s, pos + |tag|, tag)
    case None => Failed(Error(pos + |tag|, ExpectedDollarQuoteEnd))
    case Some(i) => Match(s[pos..i + |tag|], SkipRepeat(s, i + |tag|, tag))
  }

  /** The offset after a closing tag at `q`: a second copy of `tag` right there is skipped. */
  function SkipRepeat(s: string, q: nat, tag: string): (n: nat)
    requires q <= |s|
    ensures n == q || (n == q + |tag| && StartsWith(s, q, tag))
  {
    if StartsWith(s, q, tag) then q + |tag| else q
  }

  /** A dollar-quoted string holds its opening tag, a body without the tag, and the closing
      tag; an immediately repeated tag is skipped; without a closing tag it fails. */
  lemma DollarQuotedShape(s: string, pos: nat)
    requires pos <= |s| && OpeningTag(s, pos).Some?
    ensures DollarOutcome(s, pos, OpeningTag(s, pos).value, DollarQuoted(s, pos))
  {
    DollarBodyShape(s, pos, OpeningTag(s, pos).value);
  }

  ghost predicate DollarOutcome(s: string, pos: nat, tag: string, r: Scan<string>)
    requires pos + |tag| <= |s|
  {
    && (r.Match? ==>
      var q := pos + |r.value|;
      && q <= |s| && r.value == s[pos..q]
      && pos + 2 * |tag| <= q && StartsWith(s, q - |tag|, tag)
      && (forall i | pos + |tag| <= i < q - |tag| :: !StartsWith(s, i, tag))
      && (StartsWith(s, q, tag) ==> r.next == q + |tag|)
      && (!StartsWith(s, q, tag) ==> r.next == q))
    && (r.Failed? ==>
      && r.error == Error(pos + |tag|, ExpectedDollarQuoteEnd)
      && forall i | pos + |tag| <= i <= |s| :: !StartsWith(s, i, tag))
  }

  lemma DollarBodyShape(s: string, pos: nat, tag: string)
    requires pos + |tag| <= |s|
    ensures DollarOutcome(s, pos, tag, DollarQuotedBody(s, pos, tag))
  {
    FindFirst(s, pos + |tag|, tag);
    match Find(s, pos + |tag|, tag)
    case None =>
    case Some(i) =>
      var q := i + |tag|;
      var r := DollarQuotedBody(s, pos, tag);
      assert r == Match(s[pos..q], SkipRepeat(s, q, tag));
      assert pos + |r.value| == q;
      assert q <= |s| && r.value == s[pos..q];
      assert pos + 2 * |tag| <= q;
      assert StartsWith(s, q - |tag|, tag);
      assert forall i | pos + |tag| <= i < q - |tag| :: !StartsWith(s, i, tag);
      assert StartsWith(s, q, tag) ==> r.next == q + |tag|;
      assert !StartsWith(s, q, tag) ==> r.next == q;
  }

  /** At no position of `s` does `dollarquoted()` find a string followed right away by a
      second copy of its tag, so no tag is skipped. Every position counts, also those
      inside a quoted literal or a comment that the tokenizer never scans this way:
      `'$$a$$$$'` is excluded although it reads as one literal. */
  ghost predicate NoRepeatedTag(s: string) {
    forall i | 0 <= i <= |s| :: DollarQuoted(s, i).Match? ==> DollarQuoted(s, i).next == i + |DollarQuoted(s, i).value|
  }

  /** What a token rule that yields a lexeme promises: on a match the lexeme is non-empty
      text of the input at `pos`, and only a skipped repeated tag lies beyond it. */
  ghost predicate Lexeme(s: string, pos: nat, r: Scan<string>)
    requires pos <= |s|
  {
    && (r.Match? ==> pos < pos + |r.value| <= r.next <= |s| && r.value == s[pos..pos + |r.value|])
    && (r.Match? && NoRepeatedTag(s) ==> r.next == pos + |r.value|)
  }

  /** The rules `token()` tries after a bracket group: `placeholder()`, then `dollarquoted()`. */
  function TrailingAtom(s: string, pos: nat): (r: Scan<string>)
    requires pos <= |s|
    ensures Lexeme(s, pos, r)
    ensures r.Failed? ==> pos < r.error.offset <= |s| && r.error.reason != ExpectedSqlToken && r.error.reason != ExpectedGroupEnd
  {
    var placeholder := Prefixed(s, pos, ':');
    if placeholder.Match? then placeholder else DollarQuoted(s, pos)
  }

  /** Only `$` and a `:` before a word character can start the trailing rules. */
  lemma TrailingNone(s: string, pos: nat)
    requires pos < |s| && s[pos] != '$'
    requires s[pos] == ':' ==> pos + 1 == |s| || !IsWordChar(s[pos + 1])
    ensures TrailingAtom(s, pos).NoMatch?
  {
  }

  /** The quote characters `[`'"]`. */
  const QuoteChars: set<char> := {'`', '\'', '"'}

  /** Reference reading of a quoted literal's body for closing quote `q`: a sequence of
      two-character escapes (a backslash and any character) and single characters
      other than `q` and the backslash. */
  ghost predicate EscapedText(b: string, q: char)
    decreases |b|
  {
    if b == [] then true
    else if b[0] == '\\' then |b| >= 2 && EscapedText(b[2..], q)
    else b[0] != q && EscapedText(b[1..], q)
  }

  lemma {:induction false} EscapedAppend(a: string, b: string, q: char)
    requires EscapedText(a, q) && EscapedText(b, q)
    ensures EscapedText(a + b, q)
    decreases |a|
  {
    if a == [] {
      assert a + b == b;
    } else if a[0] == '\\' {
      EscapedAppend(a[2..], b, q);
      assert (a + b)[2..] == a[2..] + b;
    } else {
      EscapedAppend(a[1..], b, q);
      assert (a + b)[1..] == a[1..] + b;
    }
  }

  lemma {:induction false} PlainIsEscaped(b: string, q: char)
    requires forall i | 0 <= i < |b| :: b[i] != q && b[i] != '\\'
    ensures EscapedText(b, q)
    decreases |b|
  {
    if b != [] {
      PlainIsEscaped(b[1..], q);
    }
  }

  /** `quoted()`: a literal opened by one of `QuoteChars` and closed by the first
      unescaped occurrence of the same character. */
  function Quoted(s: string, pos: nat): (r: Scan<string>)
    requires pos <= |s|
    ensures r.NoMatch? <==> !(pos < |s| && s[pos] in QuoteChars)
    ensures r.Match? ==> pos + 2 <= r.next <= |s| && r.value == s[pos..r.next]
    ensures r.Failed? ==> r.error.reason == ExpectedEndQuote || r.error.reason == EscapeAtEnd
    ensures r.Failed? ==> pos < r.error.offset <= |s|
  {
    if pos < |s| && s[pos] in QuoteChars then QuotedRest(s, pos, pos + 1) else NoMatch
  }

  /** `[^q\\]`: the characters a quoted literal closed by `q` holds without escaping. */
  function Unquoted(q: char): char -> bool {
    c => c != q && c != '\\'
  }

  /** The loop of `quoted()`, with the cursor at `p` inside the literal opened at `start`. */
  function QuotedRest(s: string, start: nat, p: nat): (r: Scan<string>)
    requires start < p <= |s|
    ensures !r.NoMatch?
    ensures r.Match? ==> p < r.next <= |s| && r.value == s[start..r.next]
    ensures r.Failed? ==> r.error.reason == ExpectedEndQuote || r.error.reason == EscapeAtEnd
    ensures r.Failed? ==> p <= r.error.offset <= |s|
    decreases |s| - p
  {
    if StartsWith(s, p, "\\") then
      if p + 2 <= |s| then QuotedRest(s, start, p + 2) else Failed(Error(p, EscapeAtEnd))
    else if StartsWith(s, p, [s[start]]) then
      Match(s[start..p + 1], p + 1)
    else
      var e := RunEnd(s, p, Unquoted(s[start]));
      if e > p then QuotedRest(s, start, e) else Failed(Error(p, ExpectedEndQuote))
  }

  /** What a quoted literal opened at `start` may come to: a match that runs to the first
      unescaped copy of the opening quote, with an `EscapedText` body, or a failure at the
      end of the input, where the last character is a lone backslash or the body is complete. */
  ghost predicate QuotedOutcome(s: string, start: nat, r: Scan<string>)
    requires start < |s|
  {
    && (r.Match? ==>
      && start + 2 <= r.next <= |s| && r.value == s[start..r.next]
      && s[r.next - 1] == s[start] && EscapedText(s[start + 1..r.next - 1], s[start]))
    && (r.Failed? ==>
      || (r.error == Error(|s|, ExpectedEndQuote) && EscapedText(s[start + 1..], s[start]))
      || (&& start + 1 < |s| && r.error == Error(|s| - 1, EscapeAtEnd) && s[|s| - 1] == '\\'
          && EscapedText(s[start + 1..|s| - 1], s[start])))
  }

  lemma QuotedShape(s: string, pos: nat)
    requires pos < |s| && s[pos] in QuoteChars
    ensures QuotedOutcome(s, pos, Quoted(s, pos))
  {
    assert s[pos + 1..pos + 1] == [];
    QuotedRestShape(s, pos, pos + 1);
  }

  lemma {:induction false} QuotedRestShape(s: string, start: nat, p: nat)
    requires start < p <= |s|
    requires EscapedText(s[start + 1..p], s[start])
    ensures QuotedOutcome(s, start, QuotedRest(s, start, p))
    decreases |s| - p
  {
    var q := s[start];
    if StartsWith(s, p, "\\") {
      if p + 2 <= |s| {
        EscapeStep(s, start, p);
        QuotedRestShape(s, start, p + 2);
      } else {
        EscapeAtLast(s, start, p);
      }
    } else if StartsWith(s, p, [q]) {
      QuoteCloses(s, start, p);
    } else {
      var e := RunEnd(s, p, Unquoted(q));
      if e > p {
        RunEndAll(s, p, Unquoted(q));
        PlainStep(s, start, p, e);
        QuotedRestShape(s, start, e);
      } else {
        QuoteMissing(s, start, p);
      }
    }
  }

  lemma EscapeAtLast(s: string, start: nat, p: nat)
    requires start < p && p + 2 > |s| && StartsWith(s, p, "\\")
    requires EscapedText(s[start + 1..p], s[start])
    ensures QuotedOutcome(s, start, Failed(Error(p, EscapeAtEnd)))
  {
    assert p == |s| - 1 && s[p] == s[p..p + 1][0];
  }

  lemma QuoteCloses(s: string, start: nat, p: nat)
    requires start < p <= |s| && StartsWith(s, p, [s[start]])
    requires EscapedText(s[start + 1..p], s[start])
    ensures QuotedOutcome(s, start, Match(s[start..p + 1], p + 1))
  {
    SingleCharPrefix(s, p, s[start]);
    assert s[start + 1..p + 1 - 1] == s[start + 1..p];
  }

  lemma QuoteMissing(s: string, start: nat, p: nat)
    requires start < p <= |s| && !StartsWith(s, p, "\\") && !StartsWith(s, p, [s[start]])
    requires RunEnd(s, p, Unquoted(s[start])) == p
    requires EscapedText(s[start + 1..p], s[start])
    ensures QuotedOutcome(s, start, Failed(Error(p, ExpectedEndQuote)))
  {
    SingleCharPrefix(s, p, s[start]);
    SingleCharPrefix(s, p, '\\');
    assert p == |s|;
    assert s[start + 1..] == s[start + 1..p];
  }

  lemma EscapeStep(s: string, start: nat, p: nat)
    requires start < p && p + 2 <= |s| && StartsWith(s, p, "\\")
    requires EscapedText(s[start + 1..p], s[start])
    ensures EscapedText(s[start + 1..p + 2], s[start])
  {
    var q := s[start];
    assert s[p] == s[p..p + 1][0] == '\\';
    assert s[p..p + 2][2..] == [];
    assert EscapedText(s[p..p + 2], q);
    EscapedAppend(s[start + 1..p], s[p..p + 2], q);
    assert s[start + 1..p] + s[p..p + 2] == s[start + 1..p + 2];
  }

  lemma PlainStep(s: string, start: nat, p: nat, e: nat)
    requires start < p <= e <= |s|
    requires forall i | p <= i < e :: s[i] != s[start] && s[i] != '\\'
    requires EscapedText(s[start + 1..p], s[start])
    ensures EscapedText(s[start + 1..e], s[start])
  {
    var q := s[start];
    assert forall i | 0 <= i < e - p :: s[p..e][i] == s[p + i];
    PlainIsEscaped(s[p..e], q);
    EscapedAppend(s[start + 1..p], s[p..e], q);
    assert s[start + 1..p] + s[p..e] == s[start + 1..e];
  }

  lemma SliceJoin(s: string, i: nat, j: nat, k: nat)
    requires i <= j <= k <= |s|
    ensures s[i..j] + s[j..k] == s[i..k]
  {
  }

  lemma SingleCharPrefix(s: string, p: nat, c: char)
    ensures p < |s| ==> (StartsWith(s, p, [c]) <==> s[p] == c)
  {
    if p < |s| {
      assert s[p..p + 1] == [s[p]];
    }
  }

  /** `consume('.*?[\r\n]+')`: the end of the text through the first run of line breaks, if any. */
  function ThroughLineBreak(s: string, pos: nat): (r: Option<nat>)
    requires pos <= |s|
    ensures r.None? <==> forall i | pos <= i < |s| :: !IsNewline(s[i])
    ensures r.Some? ==> pos < r.value <= |s| && IsNewline(s[r.value - 1])
    ensures r.Some? ==> r.value == |s| || !IsNewline(s[r.value])
    ensures r.Some? ==> forall i, j | pos <= i < j < r.value :: IsNewline(s[i]) ==> IsNewline(s[j])
  {
    var i := RunEnd(s, pos, NotNewline);
    RunEndAll(s, pos, NotNewline);
    RunEndAll(s, i, IsNewline);
    if i == |s| then None else Some(RunEnd(s, i, IsNewline))
  }

  /** The end of `t[b..e]` once its trailing `trim()` characters are removed. */
  function TrimmedEnd(t: string, b: nat, e: nat): (r: nat)
    requires b <= e <= |t|
    ensures b <= r <= e
    ensures r == b || !IsTrimmed(t[r - 1])
    decreases e
  {
    if b < e && IsTrimmed(t[e - 1]) then TrimmedEnd(t, b, e - 1) else e
  }

  lemma {:induction false} TrimmedEndAll(t: string, b: nat, e: nat)
    requires b <= e <= |t|
    ensures forall i | TrimmedEnd(t, b, e) <= i < e :: IsTrimmed(t[i])
    decreases e
  {
    if b < e && IsTrimmed(t[e - 1]) {
      TrimmedEndAll(t, b, e - 1);
    }
  }

  /** PHP `trim()` with its default character list. */
  function Trim(t: string): (r: string)
    ensures r == [] || (!IsTrimmed(r[0]) && !IsTrimmed(r[|r| - 1]))
    ensures r == [] <==> forall i | 0 <= i < |t| :: IsTrimmed(t[i])
  {
    var b := RunEnd(t, 0, IsTrimmed);
    var e := TrimmedEnd(t, b, |t|);
    RunEndAll(t, 0, IsTrimmed);
    TrimmedEndAll(t, b, |t|);
    t[b..e]
  }

  /** `trim()` removes a prefix and a suffix of trimmable characters and nothing else. */
  lemma TrimEnds(t: string)
    ensures exists b, e | 0 <= b <= e <= |t| :: && Trim(t) == t[b..e]
                                                 && (forall i | 0 <= i < b :: IsTrimmed(t[i]))
                                                 && (forall i | e <= i < |t| :: IsTrimmed(t[i]))
  {
    var b := RunEnd(t, 0, IsTrimmed);
    var e := TrimmedEnd(t, b, |t|);
    RunEndAll(t, 0, IsTrimmed);
    TrimmedEndAll(t, b, |t|);
    assert Trim(t) == t[b..e];
  }
}
