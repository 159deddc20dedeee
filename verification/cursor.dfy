/** The scanning state both tokenizer classes keep, an input and a byte offset into it,
    with the `consume`-style steps over it and the scanners that only move the offset
    (`comment`, `dollarquoted`, `placeholder`, `quoted`). Every method is proved to
    return what the matching function of `Lexer` yields at the old offset, and to leave
    the offset after it. */
module Cursors {
  import opened Tokens
  import opened Lexer

  class Cursor {
    const input: string
    var offset: nat

    ghost predicate Valid()
      reads this
    {
      offset <= |input|
    }

    constructor (input: string)
      ensures this.input == input && offset == 0 && Valid()
    {
      this.input := input;
      offset := 0;
    }

    /** `isEOF()` */
    method IsEOF() returns (b: bool)
      requires Valid()
      ensures b <==> offset == |input|
    {
      b := offset == |input|;
    }

    /** `is($exact)` */
    method Is(exact: string) returns (b: bool)
      requires Valid()
      ensures b == StartsWith(input, offset, exact)
    {
      b := offset + |exact| <= |input| && input[offset..offset + |exact|] == exact;
    }

    /** `consume` of `\w+` or `\s+`. */
    method ConsumeRun(p: char -> bool) returns (r: Scan<string>)
      requires Valid()
      modifies this`offset
      ensures Valid() && r == Run(input, old(offset), p)
      ensures offset == if r.Match? then r.next else old(offset)
    {
      r := Run(input, offset, p);
      if r.Match? {
        offset := r.next;
      }
    }

    /** `consume` of `\s*`, `[ ]*` or `[^\r\n]*`: a possibly empty run. */
    method ConsumeWhile(p: char -> bool) returns (m: string)
      requires Valid()
      modifies this`offset
      ensures Valid() && offset == RunEnd(input, old(offset), p)
      ensures m == input[old(offset)..offset]
    {
      var e := RunEnd(input, offset, p);
      m := input[offset..e];
      offset := e;
    }

    /** `consume` of a one-character class. */
    method ConsumeOneOf(cs: set<char>) returns (r: Scan<string>)
      requires Valid()
      modifies this`offset
      ensures Valid() && r == OneOf(input, old(offset), cs)
      ensures offset == if r.Match? then r.next else old(offset)
    {
      r := OneOf(input, offset, cs);
      if r.Match? {
        offset := r.next;
      }
    }

    /** `consume` of a pattern that matches one fixed text: a comment opener, `;`, a delimiter, a dollar tag. */
    method ConsumeLiteral(t: string) returns (r: Scan<string>)
      requires Valid()
      modifies this`offset
      ensures Valid() && r == Literal(input, old(offset), t)
      ensures offset == if r.Match? then r.next else old(offset)
    {
      r := Literal(input, offset, t);
      if r.Match? {
        offset := r.next;
      }
    }

    /** `consume` of `@\w+` or `:\w+`. */
    method ConsumePrefixed(c: char) returns (r: Scan<string>)
      requires Valid()
      modifies this`offset
      ensures Valid() && r == Prefixed(input, old(offset), c)
      ensures offset == if r.Match? then r.next else old(offset)
    {
      r := Prefixed(input, offset, c);
      if r.Match? {
        offset := r.next;
      }
    }

    /** `consume` of `.*?t`: the text through the next occurrence of `t`, or `""` when there is none. */
    method ConsumeThrough(t: string) returns (m: string)
      requires Valid()
      modifies this`offset
      ensures Valid()
      ensures match Find(input, old(offset), t)
        case Some(i) => offset == i + |t| && m == input[old(offset)..offset]
        case None => offset == old(offset) && m == ""
    {
      match Find(input, offset, t)
      case Some(i) =>
        m := input[offset..i + |t|];
        offset := i + |t|;
      case None =>
        m := "";
    }

    /** `consume('.*?[\r\n]+')`: the rest of the line with its line breaks, or `""` without one. */
    method ConsumeLine() returns (m: string)
      requires Valid()
      modifies this`offset
      ensures Valid()
      ensures match ThroughLineBreak(input, old(offset))
        case Some(e) => offset == e && m == input[old(offset)..e]
        case None => offset == old(offset) && m == ""
    {
      match ThroughLineBreak(input, offset)
      case Some(e) =>
        m := input[offset..e];
        offset := e;
      case None =>
        m := "";
    }

    /** `consume('\$\w*\$')` */
    method ConsumeDollarTag() returns (m: string)
      requires Valid()
      modifies this`offset
      ensures Valid()
      ensures match OpeningTag(input, old(offset))
        case Some(tag) => offset == old(offset) + |tag| && m == tag
        case None => offset == old(offset) && m == ""
    {
      match OpeningTag(input, offset)
      case Some(tag) =>
        m := tag;
        offset := offset + |tag|;
      case None =>
        m := "";
    }

    /** `comment()` */
    method Comment() returns (r: Scan<string>)
      requires Valid()
      modifies this`offset
      ensures Valid() && r == Lexer.Comment(input, old(offset))
      ensures r.Match? ==> offset == r.next
      ensures r.NoMatch? ==> offset == old(offset)
    {
      var start := ConsumeLiteral("--");
      if start.Match? {
        r := LineCommentRest(offset - 2);
        return;
      }
      start := ConsumeLiteral("/*");
      if start.Match? {
        r := BlockCommentRest(offset - 2);
        return;
      }
      return NoMatch;
    }

    /** `comment()` after its opener `--`, which ends at the cursor. */
    method LineCommentRest(start: nat) returns (r: Scan<string>)
      requires Valid() && offset == start + 2 && StartsWith(input, start, "--")
      modifies this`offset
      ensures Valid() && r == Lexer.Comment(input, start)
      ensures r.Match? && offset == r.next
    {
      var comment := ConsumeWhile(NotNewline);
      SliceJoin(input, start, start + 2, offset);
      return Match("--" + comment, offset);
    }

    /** `comment()` after a block-comment opener, which ends at the cursor. */
    method BlockCommentRest(start: nat) returns (r: Scan<string>)
      requires Valid() && offset == start + 2 && StartsWith(input, start, "/*")
      modifies this`offset
      ensures Valid() && r == Lexer.Comment(input, start)
      ensures r.Match? ==> offset == r.next
    {
      assert !StartsWith(input, start, "--") by {
        assert input[start..start + 2][0] == '/';
      }
      var comment := ConsumeThrough("*/");
      if TruthyText(comment) {
        SliceJoin(input, start, start + 2, offset);
        return Match("/*" + comment, offset);
      }
      return Failed(Error(offset, ExpectedBlockCommentEnd));
    }

    /** `dollarquoted()` */
    method DollarQuoted() returns (r: Scan<string>)
      requires Valid()
      modifies this`offset
      ensures Valid() && r == Lexer.DollarQuoted(input, old(offset))
      ensures r.Match? ==> offset == r.next
      ensures r.NoMatch? ==> offset == old(offset)
    {
      var delimiter := ConsumeDollarTag();
      if TruthyText(delimiter) {
        r := DollarQuotedRest(offset - |delimiter|, delimiter);
        return;
      }
      return NoMatch;
    }

    /** `dollarquoted()` after its opening tag `delimiter`, which ends at the cursor. */
    method DollarQuotedRest(start: nat, delimiter: string) returns (r: Scan<string>)
      requires Valid() && offset == start + |delimiter| && |delimiter| >= 2
      requires StartsWith(input, start, delimiter)
      modifies this`offset
      ensures Valid() && r == DollarQuotedBody(input, start, delimiter)
      ensures r.Match? ==> offset == r.next
    {
      var body := ConsumeThrough(delimiter);
      if TruthyText(body) {
        SliceJoin(input, start, start + |delimiter|, offset);
        var _ := ConsumeLiteral(delimiter);
        return Match(delimiter + body, offset);
      }
      return Failed(Error(offset, ExpectedDollarQuoteEnd));
    }

    /** `placeholder()` */
    method Placeholder() returns (r: Scan<string>)
      requires Valid()
      modifies this`offset
      ensures Valid() && r == Prefixed(input, old(offset), ':')
      ensures offset == if r.Match? then r.next else old(offset)
    {
      r := ConsumePrefixed(':');
    }

    /** The rules both `token()` methods try after `grouped()`: `placeholder()`, then `dollarquoted()`. */
    method TrailingAtom() returns (r: Scan<string>)
      requires Valid()
      modifies this`offset
      ensures Valid() && r == Lexer.TrailingAtom(input, old(offset))
      ensures r.Match? ==> offset == r.next
      ensures r.NoMatch? ==> offset == old(offset)
    {
      r := Placeholder();
      if r.NoMatch? {
        r := DollarQuoted();
      }
    }

    /** `quoted()` */
    method Quoted() returns (r: Scan<string>)
      requires Valid()
      modifies this`offset
      ensures Valid() && r == Lexer.Quoted(input, old(offset))
      ensures r.Match? ==> offset == r.next
      ensures r.NoMatch? ==> offset == old(offset)
    {
      var quote := ConsumeOneOf(QuoteChars);
      if quote.NoMatch? {
        return NoMatch;
      }
      r := QuotedLoop(offset - 1, quote.value);
    }

    /** The `while (true)` loop of `quoted()`: the literal is built from its pieces as the
        loop finds them, starting from the opening quote `text` at `start`. */
    method QuotedLoop(start: nat, text: string) returns (r: Scan<string>)
      requires Valid() && start < offset && input[start] in QuoteChars
      requires offset == start + 1 && text == [input[start]]
      modifies this`offset
      ensures Valid() && r == QuotedRest(input, start, start + 1)
      ensures r.Match? ==> offset == r.next
    {
      var pieces := text;
      ghost var spec := QuotedRest(input, start, offset);
      while true
        invariant Valid() && start < offset
        invariant pieces == input[start..offset]
        invariant spec == QuotedRest(input, start, offset)
        decreases |input| - offset
      {
        ghost var p := offset;
        var done, piece;
        done, r, piece := QuotedStep(start);
        if done {
          if r.Match? {
            SliceJoin(input, start, p, offset);
            return Match(pieces + piece, offset);
          }
          return;
        }
        SliceJoin(input, start, p, offset);
        pieces := pieces + piece;
      }
    }

    /** One pass of that loop: an escape pair or a run of plain characters is consumed
        and the loop goes on, or the closing quote ends it, or it fails. */
    method QuotedStep(start: nat) returns (done: bool, r: Scan<string>, piece: string)
      requires Valid() && start < offset && input[start] in QuoteChars
      modifies this`offset
      ensures Valid() && old(offset) <= offset
      ensures piece == input[old(offset)..offset]
      ensures !done ==> old(offset) < offset && QuotedRest(input, start, old(offset)) == QuotedRest(input, start, offset)
      ensures done && r.Match? ==> QuotedRest(input, start, old(offset)) == Match(input[start..offset], offset)
      ensures done && !r.Match? ==> QuotedRest(input, start, old(offset)) == r
    {
      var q := input[start];
      var escape := Is("\\");
      if escape {
        if offset + 2 > |input| {
          return true, Failed(Error(offset, EscapeAtEnd)), "";
        }
        piece := input[offset..offset + 2];
        offset := offset + 2;
        return false, NoMatch, piece;
      }
      var closes := Is([q]);
      if closes {
        offset := offset + 1;
        return true, Match([q], offset), [q];
      }
      var chunk := ConsumeWhile(Unquoted(q));
      if chunk != "" {
        return false, NoMatch, chunk;
      }
      return true, Failed(Error(offset, ExpectedEndQuote)), "";
    }
  }
}
