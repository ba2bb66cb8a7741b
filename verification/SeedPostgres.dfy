/** The sanitiser against PostgreSQL's own reading of a text (section 4.1 of its manual, "Lexical
    Structure", with standard-conforming strings): exactly when the two find the same comments and
    literals, so that what the sanitiser keeps is what PostgreSQL executes. */
module SeedPostgres {
  import opened SeedSanitizer
  import opened SeedSafety

  const BACKSLASH: Byte := 92
  const RETURN: Byte := 13

  predicate IsDigit(b: Byte) { 48 <= b <= 57 }

  /** What an identifier or the name of a dollar tag may begin with. */
  predicate IsStart(b: Byte) {
    b == 95 || 97 <= b <= 122 || 65 <= b <= 90 || b >= 128
  }

  predicate IsBlank(b: Byte) { b == SPACE || 9 <= b <= 13 }

  // ----- what PostgreSQL remembers of the code before a position

  /** `Prefix` is a word that so far is a lone E; `Escaped` is right behind an escape string, with or
      without a line break since. */
  datatype Context = Fresh | Number | Word | Prefix | Escaped(newLine: bool)

  predicate InWord(c: Context) { c.Word? || c.Prefix? }

  /** A quote here opens an escape string, or continues one on another line. */
  predicate Escapes(c: Context) { c.Prefix? || c == Escaped(true) }

  function After(c: Context, b: Byte): Context {
    if IsStart(b) then (if (c.Fresh? || c.Escaped?) && (b == 69 || b == 101) then Prefix else Word)
    else if IsDigit(b) then (if InWord(c) then Word else Number)
    else if b == DOLLAR then (if InWord(c) then Word else Fresh)
    else if c.Escaped? && IsBlank(b) then Escaped(c.newLine || b == NEWLINE || b == RETURN)
    else Fresh
  }

  // ----- PostgreSQL's comments and literals

  function PgLineEnd(s: Bytes): (n: nat)
    ensures n <= |s|
  {
    if s == [] || s[0] == NEWLINE || s[0] == RETURN then 0 else 1 + PgLineEnd(s[1..])
  }

  /** Block comments nest. */
  function NestedEnd(s: Bytes, depth: nat): (n: nat)
    ensures n <= |s| && (s != [] ==> n > 0)
    decreases |s|
  {
    if s == [] then 0
    else if StartsWith(s, SLASH, STAR) then 2 + NestedEnd(s[2..], depth + 1)
    else if StartsWith(s, STAR, SLASH) then 2 + (if depth == 0 then 0 else NestedEnd(s[2..], depth - 1))
    else 1 + NestedEnd(s[1..], depth)
  }

  /** In an escape string a backslash takes the next byte with it. */
  function EscapeEnd(s: Bytes): (n: nat)
    ensures n <= |s| && (s != [] ==> n > 0)
    decreases |s|
  {
    if s == [] then 0
    else if s[0] == BACKSLASH then (if |s| == 1 then 1 else 2 + EscapeEnd(s[2..]))
    else if s[0] != QUOTE then 1 + EscapeEnd(s[1..])
    else if StartsWith(s, QUOTE, QUOTE) then 2 + EscapeEnd(s[2..])
    else 1
  }

  /** The name of a tag, with its second dollar: it may not begin with a digit, and may hold bytes
      above 127. */
  function NameRest(s: Bytes, first: bool): (n: nat)
    ensures n <= |s|
  {
    if s == [] then 0
    else if s[0] == DOLLAR then 1
    else if (IsStart(s[0]) || (!first && IsDigit(s[0]))) && NameRest(s[1..], false) > 0 then 1 + NameRest(s[1..], false)
    else 0
  }

  /** A dollar inside a word belongs to the word. */
  predicate PgStartsTag(s: Bytes, c: Context) {
    s != [] && s[0] == DOLLAR && !InWord(c) && NameRest(s[1..], true) > 0
  }

  predicate PgPlain(s: Bytes, c: Context) {
    && !StartsWith(s, DASH, DASH) && !StartsWith(s, SLASH, STAR)
    && (s != [] ==> s[0] != QUOTE && s[0] != DOUBLE_QUOTE)
    && !PgStartsTag(s, c)
  }

  function PgTokenLength(s: Bytes, c: Context): (n: nat)
    requires !PgPlain(s, c)
    ensures 1 <= n <= |s|
  {
    if StartsWith(s, DASH, DASH) then 2 + PgLineEnd(s[2..])
    else if StartsWith(s, SLASH, STAR) then 2 + NestedEnd(s[2..], 0)
    else if s[0] == QUOTE then 1 + (if Escapes(c) then EscapeEnd(s[1..]) else QuoteEnd(s[1..], QUOTE))
    else if s[0] == DOUBLE_QUOTE then 1 + QuoteEnd(s[1..], DOUBLE_QUOTE)
    else
      var n := 1 + NameRest(s[1..], true);
      n + DollarEnd(s[n..], s[..n])
  }

  /** A line comment may stand between the parts of an escape string. */
  function AfterToken(s: Bytes, c: Context): Context {
    if StartsWith(s, DASH, DASH) then (if c.Escaped? then c else Fresh)
    else if s != [] && s[0] == QUOTE && Escapes(c) then Escaped(false)
    else Fresh
  }

  /** The text with everything PostgreSQL does not execute blanked. */
  function Executed(s: Bytes, c: Context): (r: Bytes)
    ensures |r| == |s|
    decreases |s|
  {
    if s == [] then []
    else if PgPlain(s, c) then [s[0]] + Executed(s[1..], After(c, s[0]))
    else
      var n := PgTokenLength(s, c);
      Blanks(s[..n]) + Executed(s[n..], AfterToken(s, c))
  }

  // ----- reading alike

  /** Both find the same comments and literals, one after another. */
  predicate ReadsAlike(s: Bytes, c: Context)
    decreases |s|
  {
    s == [] ||
    ((Plain(s) <==> PgPlain(s, c)) &&
     if Plain(s) then ReadsAlike(s[1..], After(c, s[0]))
     else TokenLength(s) == PgTokenLength(s, c) && ReadsAlike(s[TokenLength(s)..], AfterToken(s, c)))
  }

  /** Then what the sanitiser keeps is exactly what PostgreSQL executes. */
  lemma {:induction false} AlikeKeepsExecuted(s: Bytes, c: Context)
    requires ReadsAlike(s, c)
    ensures Sanitized(s) == Executed(s, c)
    decreases |s|
  {
    if s == [] {
    } else {
      if Plain(s) {
        AlikeKeepsExecuted(s[1..], After(c, s[0]));
      } else {
        AlikeKeepsExecuted(s[TokenLength(s)..], AfterToken(s, c));
      }
    }
  }

  // ----- the texts that are read alike

  /** No comment opens within the first `n` bytes. */
  predicate NoOpening(s: Bytes, n: int)
    requires n <= |s|
  {
    forall k :: 0 <= k && k + 1 < n ==> !(s[k] == SLASH && s[k + 1] == STAR)
  }

  predicate AllQuotes(s: Bytes) {
    forall k :: 0 <= k < |s| ==> s[k] == QUOTE
  }

  /** Up to the end of the escape string no backslash stands before a quote, unless nothing but quotes
      follows to the end of the text. */
  predicate NoEscapedQuote(s: Bytes)
    decreases |s|
  {
    if s == [] then true
    else if s[0] == BACKSLASH then |s| == 1 || (if s[1] == QUOTE then AllQuotes(s[1..]) else NoEscapedQuote(s[2..]))
    else if s[0] != QUOTE then NoEscapedQuote(s[1..])
    else StartsWith(s, QUOTE, QUOTE) ==> NoEscapedQuote(s[2..])
  }

  /** The name of a tag, through its second dollar, with a byte above 127 in it (or `wide` before). */
  predicate WideName(s: Bytes, first: bool, wide: bool) {
    s != [] &&
    if s[0] == DOLLAR then wide
    else (IsStart(s[0]) || (!first && IsDigit(s[0]))) && WideName(s[1..], false, wide || s[0] >= 128)
  }

  /** A comment or literal on which the two agree: a line comment without a carriage return; a block
      comment that runs to the end of the text or has no other in it; an escape string without an
      escaped quote; a dollar tag outside a word that does not begin with a digit. */
  predicate OrdinaryToken(s: Bytes, c: Context)
    requires !Plain(s)
  {
    var n := TokenLength(s);
    if StartsWith(s, DASH, DASH) then RETURN !in s[..n]
    else if StartsWith(s, SLASH, STAR) then n == |s| || NoOpening(s[2..], n - 3)
    else if s[0] == QUOTE && Escapes(c) then NoEscapedQuote(s[1..])
    else s[0] == DOLLAR ==> !InWord(c) && !IsDigit(s[1])
  }

  /** Every comment and literal is ordinary, and no dollar tag has bytes above 127. */
  predicate Ordinary(s: Bytes, c: Context)
    decreases |s|
  {
    s == [] ||
    if Plain(s) then !(s[0] == DOLLAR && !InWord(c) && WideName(s[1..], true, false)) && Ordinary(s[1..], After(c, s[0]))
    else OrdinaryToken(s, c) && Ordinary(s[TokenLength(s)..], AfterToken(s, c))
  }

  lemma {:induction false} LineEndsAlike(s: Bytes)
    ensures PgLineEnd(s) == LineEnd(s) <==> RETURN !in s[..LineEnd(s)]
  {
    if s != [] && s[0] != NEWLINE {
      LineEndsAlike(s[1..]);
      assert s[..LineEnd(s)] == [s[0]] + s[1..][..LineEnd(s[1..])];
    }
  }

  lemma {:induction false} NestingReachesFurther(s: Bytes, depth: nat)
    ensures NestedEnd(s, depth) >= BlockEnd(s)
    ensures depth > 0 && BlockEnd(s) < |s| ==> NestedEnd(s, depth) > BlockEnd(s)
    decreases |s|
  {
    if s == [] {
    } else {
      if StartsWith(s, SLASH, STAR) {
        NestingReachesFurther(s[2..], depth + 1);
        assert s[1..][1..] == s[2..];
        if StartsWith(s[1..], STAR, SLASH) {
          OneMore(s[2..], depth + 1);
        }
      } else if StartsWith(s, STAR, SLASH) {
        assert depth > 0 && |s| > 2 ==> NestedEnd(s[2..], depth - 1) > 0;
      } else {
        NestingReachesFurther(s[1..], depth);
      }
    }
  }

  lemma OneMore(s: Bytes, depth: nat)
    requires s != [] && s[0] == SLASH
    ensures |s| > 1 ==> NestedEnd(s, depth) > 1
  {
    assert |s| > 1 ==> s[1..] != [];
  }

  lemma {:induction false} BlocksEndAlike(s: Bytes)
    ensures NestedEnd(s, 0) == BlockEnd(s) <==> BlockEnd(s) == |s| || NoOpening(s, BlockEnd(s) - 1)
    decreases |s|
  {
    NestingReachesFurther(s, 0);
    if s == [] {
    } else {
      if StartsWith(s, SLASH, STAR) {
        assert s[1..][1..] == s[2..];
        NestingReachesFurther(s[2..], 1);
        if StartsWith(s[1..], STAR, SLASH) {
          OneMore(s[2..], 1);
        }
        assert BlockEnd(s) >= 2;
        OpensAtOnce(s);
      } else if !StartsWith(s, STAR, SLASH) {
        BlocksEndAlike(s[1..]);
        NoOpeningTail(s, BlockEnd(s) - 1);
      }
    }
  }

  lemma OpensAtOnce(s: Bytes)
    requires StartsWith(s, SLASH, STAR)
    ensures BlockEnd(s) < |s| ==> BlockEnd(s) > 2 && !NoOpening(s, BlockEnd(s) - 1)
  {
    assert s[1..][1..] == s[2..];
  }

  lemma NoOpeningTail(s: Bytes, n: int)
    requires s != [] && !StartsWith(s, SLASH, STAR) && n <= |s|
    ensures NoOpening(s, n) <==> NoOpening(s[1..], n - 1)
  {
    forall k | NoOpening(s[1..], n - 1) && 0 <= k && k + 1 < n
      ensures !(s[k] == SLASH && s[k + 1] == STAR)
    {
      if k > 0 {
        assert s[k] == s[1..][k - 1] && s[k + 1] == s[1..][k];
      }
    }
    forall k | NoOpening(s, n) && 0 <= k && k + 1 < n - 1
      ensures !(s[1..][k] == SLASH && s[1..][k + 1] == STAR)
    {
      assert s[1..][k] == s[k + 1] && s[1..][k + 1] == s[k + 2];
    }
  }

  /** Behind an escaped quote the two are one quote apart, and agree only if nothing but quotes is
      left. */
  lemma {:induction false} OneQuoteApart(s: Bytes)
    requires s != [] && s[0] == QUOTE
    ensures QuoteEnd(s, QUOTE) == 1 + EscapeEnd(s[1..]) <==> AllQuotes(s)
    decreases |s|
  {
    if |s| > 1 && s[1] == QUOTE {
      assert s[1..][1..] == s[2..];
      if |s| > 2 && s[2] == QUOTE {
        OneQuoteApart(s[2..]);
        assert s[1..][2..] == s[2..][1..];
        assert forall k :: 2 <= k < |s| ==> s[k] == s[2..][k - 2];
      } else if |s| > 2 {
        assert !AllQuotes(s) && QuoteEnd(s[2..], QUOTE) > 0;
      }
    } else if |s| > 1 {
      assert !AllQuotes(s) && EscapeEnd(s[1..]) > 0;
    }
  }

  lemma {:induction false} QuotesEndAlike(s: Bytes)
    ensures EscapeEnd(s) == QuoteEnd(s, QUOTE) <==> NoEscapedQuote(s)
    decreases |s|
  {
    if s == [] {
    } else {
      if s[0] == BACKSLASH {
        if |s| > 1 {
          assert s[1..][1..] == s[2..];
          if s[1] == QUOTE {
            OneQuoteApart(s[1..]);
          } else {
            QuotesEndAlike(s[2..]);
          }
        }
      } else if s[0] != QUOTE {
        QuotesEndAlike(s[1..]);
      } else if StartsWith(s, QUOTE, QUOTE) {
        QuotesEndAlike(s[2..]);
      }
    }
  }

  lemma {:induction false} NamesAlike(s: Bytes, first: bool)
    requires TagRest(s) > 0
    ensures NameRest(s, first) == if first && IsDigit(s[0]) then 0 else TagRest(s)
  {
    if s[0] != DOLLAR {
      NamesAlike(s[1..], false);
    }
  }

  lemma {:induction false} WideNameIsWide(s: Bytes, first: bool, wide: bool)
    ensures WideName(s, first, wide) <==> NameRest(s, first) > 0 && (wide || TagRest(s) == 0)
  {
    if s != [] && s[0] != DOLLAR {
      WideNameIsWide(s[1..], false, wide || s[0] >= 128);
    }
  }

  /** A tag that PostgreSQL knows and the sanitiser does not is one with a byte above 127. */
  lemma ForeignTagIsWide(s: Bytes, c: Context)
    requires s != [] && Plain(s)
    ensures PgStartsTag(s, c) <==> s[0] == DOLLAR && !InWord(c) && WideName(s[1..], true, false)
  {
    WideNameIsWide(s[1..], true, false);
  }

  lemma TokenAlike(s: Bytes, c: Context)
    requires !Plain(s)
    ensures OrdinaryToken(s, c) <==> !PgPlain(s, c) && PgTokenLength(s, c) == TokenLength(s)
  {
    if StartsWith(s, DASH, DASH) {
      LineTokenAlike(s);
    } else if StartsWith(s, SLASH, STAR) {
      BlocksEndAlike(s[2..]);
    } else if s[0] == QUOTE {
      QuotesEndAlike(s[1..]);
    } else if s[0] != DOUBLE_QUOTE {
      NamesAlike(s[1..], true);
    }
  }

  lemma LineTokenAlike(s: Bytes)
    requires StartsWith(s, DASH, DASH)
    ensures RETURN !in s[..2 + LineEnd(s[2..])] <==> PgLineEnd(s[2..]) == LineEnd(s[2..])
  {
    LineEndsAlike(s[2..]);
    var n := LineEnd(s[2..]);
    assert s[..2 + n] == [s[0], s[1]] + s[2..][..n];
  }

  /** Exactly which texts PostgreSQL and the sanitiser read alike. */
  lemma {:induction false} AlikeExactlyWhenOrdinary(s: Bytes, c: Context)
    ensures ReadsAlike(s, c) <==> Ordinary(s, c)
    decreases |s|
  {
    if s == [] {
    } else {
      if Plain(s) {
        ForeignTagIsWide(s, c);
        AlikeExactlyWhenOrdinary(s[1..], After(c, s[0]));
      } else {
        TokenAlike(s, c);
        AlikeExactlyWhenOrdinary(s[TokenLength(s)..], AfterToken(s, c));
      }
    }
  }

  /** On ordinary texts every byte PostgreSQL executes stays visible, and nothing else does. */
  lemma OrdinaryTextsAreSafe(s: Bytes)
    requires Ordinary(s, Fresh)
    ensures Sanitized(s) == Executed(s, Fresh)
  {
    AlikeExactlyWhenOrdinary(s, Fresh);
    AlikeKeepsExecuted(s, Fresh);
  }

  // ----- where tags are the only exception, the condition is exact for what stays visible

  /** Where `executed` has the byte of the text, so has `kept`. */
  ghost predicate KeepsBytes(s: Bytes, kept: Bytes, executed: Bytes) {
    |kept| == |s| && |executed| == |s| && forall k :: 0 <= k < |s| && executed[k] == s[k] ==> kept[k] == s[k]
  }

  /** Every byte that PostgreSQL executes is kept. */
  ghost predicate KeepsExecuted(s: Bytes, c: Context) {
    KeepsBytes(s, Sanitized(s), Executed(s, c))
  }

  lemma KeepsBytesTail(s: Bytes, n: nat, a: Bytes, kept: Bytes, b: Bytes, executed: Bytes)
    requires n <= |s| && |a| == n && |b| == n && KeepsBytes(s, a + kept, b + executed)
    ensures KeepsBytes(s[n..], kept, executed)
  {
    forall k | 0 <= k < |s[n..]| && executed[k] == s[n..][k]
      ensures kept[k] == s[n..][k]
    {
      assert (b + executed)[n + k] == s[n + k];
      assert (a + kept)[n + k] == kept[k];
    }
  }

  /** The first comment or literal that is not ordinary, if there is one, is a dollar tag. */
  predicate FirstOddIsTag(s: Bytes, c: Context)
    decreases |s|
  {
    s == [] ||
    if Plain(s) then !PgStartsTag(s, c) && FirstOddIsTag(s[1..], After(c, s[0]))
    else if OrdinaryToken(s, c) then FirstOddIsTag(s[TokenLength(s)..], AfterToken(s, c))
    else s[0] == DOLLAR
  }

  lemma KeepsTail(s: Bytes, c: Context, n: nat, d: Context, kept: Bytes, done: Bytes)
    requires n <= |s| && |kept| == n && |done| == n && KeepsExecuted(s, c)
    requires Sanitized(s) == kept + Sanitized(s[n..]) && Executed(s, c) == done + Executed(s[n..], d)
    ensures KeepsExecuted(s[n..], d)
  {
    KeepsBytesTail(s, n, kept, Sanitized(s[n..]), done, Executed(s[n..], d));
  }

  /** A tag inside a word, or one that begins with a digit, hides its own first dollar. */
  lemma OddTagHidesItself(s: Bytes, c: Context)
    requires s != [] && !Plain(s) && s[0] == DOLLAR && !OrdinaryToken(s, c)
    ensures !KeepsExecuted(s, c)
  {
    TokenAlike(s, c);
    NamesAlike(s[1..], true);
    CodeIsExecuted(s, c);
    TokenIsBlanked(s, s[..TokenLength(s)], s[TokenLength(s)..]);
    assert Executed(s, c)[0] == s[0] && Sanitized(s)[0] == SPACE;
  }

  lemma CodeIsExecuted(s: Bytes, c: Context)
    requires s != [] && PgPlain(s, c)
    ensures Executed(s, c) == [s[0]] + Executed(s[1..], After(c, s[0]))
  {
  }

  lemma TokenIsSkipped(s: Bytes, c: Context, n: nat)
    requires !PgPlain(s, c) && PgTokenLength(s, c) == n
    ensures n <= |s| && Executed(s, c) == Blanks(s[..n]) + Executed(s[n..], AfterToken(s, c))
  {
  }

  lemma KeepsAfterByte(s: Bytes, c: Context)
    requires s != [] && Plain(s) && PgPlain(s, c) && KeepsExecuted(s, c)
    ensures KeepsExecuted(s[1..], After(c, s[0]))
  {
    PlainByteIsKept(s);
    CodeIsExecuted(s, c);
    KeepsTail(s, c, 1, After(c, s[0]), [s[0]], [s[0]]);
  }

  lemma KeepsAfterToken(s: Bytes, c: Context, n: nat)
    requires s != [] && !Plain(s) && OrdinaryToken(s, c) && n == TokenLength(s) && KeepsExecuted(s, c)
    ensures KeepsExecuted(s[n..], AfterToken(s, c))
  {
    TokenAlike(s, c);
    TokenIsSkipped(s, c, n);
    assert s == s[..n] + s[n..];
    TokenIsBlanked(s, s[..n], s[n..]);
    KeepsTail(s, c, n, AfterToken(s, c), Blanks(s[..n]), Blanks(s[..n]));
  }

  lemma {:induction false} KeepingIsOrdinary(s: Bytes, c: Context)
    requires FirstOddIsTag(s, c) && KeepsExecuted(s, c)
    ensures Ordinary(s, c)
    decreases |s|
  {
    if s == [] {
    } else if Plain(s) {
      ForeignTagIsWide(s, c);
      KeepsAfterByte(s, c);
      KeepingIsOrdinary(s[1..], After(c, s[0]));
    } else if OrdinaryToken(s, c) {
      KeepsAfterToken(s, c, TokenLength(s));
      KeepingIsOrdinary(s[TokenLength(s)..], AfterToken(s, c));
    } else {
      OddTagHidesItself(s, c);
    }
  }

  /** For texts whose first exception, if any, is a dollar tag: every byte that PostgreSQL executes
      stays visible exactly when the text is ordinary. */
  lemma TagsHideExactly(s: Bytes)
    requires FirstOddIsTag(s, Fresh)
    ensures KeepsExecuted(s, Fresh) <==> Ordinary(s, Fresh)
  {
    if KeepsExecuted(s, Fresh) {
      KeepingIsOrdinary(s, Fresh);
    }
    if Ordinary(s, Fresh) {
      OrdinaryTextsAreSafe(s);
    }
  }

  // ----- each condition is needed

  /** Letters, digits, blanks and semicolons: enough to write a statement. */
  predicate Words(x: Bytes) {
    forall k :: 0 <= k < |x| ==> WordByte(x[k])
  }

  predicate WordByte(b: Byte) {
    IsDigit(b) || (IsStart(b) && b < 128) || b == SPACE || b == SEMICOLON
  }

  lemma WordByteIsExecuted(s: Bytes, c: Context, b: Byte, rest: Bytes)
    requires s == [b] + rest && WordByte(b)
    ensures Executed(s, c) == [b] + Executed(rest, After(c, b))
  {
    assert s[1..] == rest;
    CodeIsExecuted(s, c);
  }

  lemma {:induction false} WordsAreExecuted(x: Bytes, c: Context, rest: Bytes) returns (d: Context)
    requires Words(x)
    ensures Executed(x + rest, c) == x + Executed(rest, d)
    decreases |x|
  {
    if x == [] {
      d := c;
      EmptyInFront(rest, Executed(rest, c));
    } else {
      d := WordsAreExecuted(x[1..], After(c, x[0]), rest);
      PutInFront(x[0], x[1..], rest, x);
      WordByteIsExecuted(x + rest, c, x[0], x[1..] + rest);
      PutInFront(x[0], x[1..], Executed(rest, d), x);
    }
  }

  lemma EmptyInFront(rest: Bytes, r: Bytes)
    ensures [] + rest == rest && [] + r == r
  {
  }

  lemma PutInFront(b: Byte, y: Bytes, r: Bytes, x: Bytes)
    requires x != [] && x[0] == b && x[1..] == y
    ensures [b] + (y + r) == x + r
  {
    assert x == [b] + y;
  }

  /** PostgreSQL executes `x` at the offset `at`, and the sanitiser hides it. */
  ghost predicate Hides(s: Bytes, at: nat, x: Bytes) {
    && at + |x| <= |s| && s[at..at + |x|] == x
    && Executed(s, Fresh)[at..at + |x|] == x && Sanitized(s)[at..at + |x|] == Blanks(x)
  }

  /** Both readings put together: `x` between `before`, which PostgreSQL takes as read, and `after`. */
  lemma HiddenBetween(s: Bytes, before: Bytes, x: Bytes, after: Bytes, e: Bytes, f: Bytes, g: Bytes)
    requires s == before + x + after && |e| == |before| && Executed(s, Fresh) == e + x + f
    requires |g| <= |before| && Sanitized(s) == g + Blanks(s[|g|..])
    ensures Hides(s, |before|, x)
  {
    var at := |before|;
    assert s[at..at + |x|] == x;
    assert (e + x + f)[at..at + |x|] == x;
    forall k | 0 <= k < |x|
      ensures Sanitized(s)[at + k] == Blanks(x)[k]
    {
      assert s[|g|..][at + k - |g|] == s[at + k] == x[k];
    }
    assert Sanitized(s)[at..at + |x|] == Blanks(x);
  }

  lemma NothingLeft(c: Context)
    ensures Sanitized([]) == [] && Executed([], c) == []
  {
  }

  /** One comment or literal to the end of the text hides all of it. */
  lemma BlankedToEnd(s: Bytes)
    requires s != [] && !Plain(s) && TokenLength(s) == |s|
    ensures Sanitized(s) == Blanks(s)
  {
    TokenIsBlanked(s, s, []);
    NothingLeft(Fresh);
  }

  /** `--`, a carriage return, `x`. */
  lemma ReturnHides(x: Bytes)
    requires Words(x)
    ensures Hides([DASH, DASH, RETURN] + x, 3, x)
  {
    var before := [DASH, DASH, RETURN];
    var s := before + x;
    var r := Executed(s, Fresh);
    ReturnIsExecuted(s, x);
    ReturnIsHidden(s, x);
    assert s == before + x + [] && s[0..] == s && [] + Blanks(s) == Blanks(s);
    HiddenBetween(s, before, x, [], r[..3], r[3 + |x|..], []);
  }

  lemma ReturnIsExecuted(s: Bytes, x: Bytes)
    requires Words(x) && s == [DASH, DASH, RETURN] + x
    ensures var r := Executed(s, Fresh); r == r[..3] + x + r[3 + |x|..]
  {
    var t := [RETURN] + x;
    assert s[2..] == t && t[1..] == x && x + [] == x;
    assert PgLineEnd(t) == 0;
    TokenIsSkipped(s, Fresh, 2);
    CodeIsExecuted(t, Fresh);
    var d := WordsAreExecuted(x, Fresh, []);
    assert Executed(s, Fresh) == (Blanks(s[..2]) + [RETURN]) + x + Executed([], d);
  }

  lemma ReturnIsHidden(s: Bytes, x: Bytes)
    requires Words(x) && s == [DASH, DASH, RETURN] + x
    ensures Sanitized(s) == Blanks(s)
  {
    NoLineBreak(s[2..]);
    BlankedToEnd(s);
  }

  lemma {:induction false} NoLineBreak(s: Bytes)
    requires NEWLINE !in s
    ensures LineEnd(s) == |s|
  {
    if s == [] {
    } else {
      NoLineBreak(s[1..]);
    }
  }

  /** A word that holds `$b$`, then `x`. */
  lemma WordTagHides(x: Bytes)
    requires Words(x)
    ensures Hides([97, DOLLAR, 98, DOLLAR] + x, 4, x)
  {
    var before: Bytes := [97, DOLLAR, 98, DOLLAR];
    var tag: Bytes := [DOLLAR, 98, DOLLAR];
    var s := before + x;
    WordWithTag(s, x);
    assert s[1..] == tag + x && s[0] == 97;
    UnclosedTag(tag + x, tag, x);
    PlainByteIsKept(s);
    assert Sanitized(s) == [97] + Blanks(s[1..]);
    assert s == before + x + [];
    HiddenBetween(s, before, x, [], before, [], [97]);
  }

  lemma WordGoesOn(b: Byte, rest: Bytes)
    requires b == DOLLAR || 97 <= b <= 122
    ensures Executed([b] + rest, Word) == [b] + Executed(rest, Word)
  {
    var s := [b] + rest;
    assert s[1..] == rest;
    CodeIsExecuted(s, Word);
  }

  lemma WordWithTag(s: Bytes, x: Bytes)
    requires s == [97, DOLLAR, 98, DOLLAR] + x && Words(x)
    ensures Executed(s, Fresh) == [97, DOLLAR, 98, DOLLAR] + x + []
  {
    var s3: Bytes := [DOLLAR] + x;
    var s2: Bytes := [98] + s3;
    var s1: Bytes := [DOLLAR] + s2;
    assert s[1..] == s1 && x + [] == x;
    CodeIsExecuted(s, Fresh);
    WordGoesOn(DOLLAR, s2);
    WordGoesOn(98, s3);
    WordGoesOn(DOLLAR, x);
    var d := WordsAreExecuted(x, Word, []);
    NothingLeft(d);
    assert Executed(s, Fresh) == [97] + ([DOLLAR] + ([98] + ([DOLLAR] + x)));
  }

  /** A tag that begins with a digit, then `x`. */
  lemma DigitTagHides(x: Bytes)
    requires Words(x)
    ensures Hides([DOLLAR, 49, DOLLAR] + x, 3, x)
  {
    var tag: Bytes := [DOLLAR, 49, DOLLAR];
    var s := tag + x;
    DigitTagIsExecuted(s, x);
    UnclosedTag(s, tag, x);
    assert s == tag + x + [] && s[0..] == s && [] + Blanks(s) == Blanks(s);
    HiddenBetween(s, tag, x, [], tag, [], []);
  }

  lemma DigitTagIsExecuted(s: Bytes, x: Bytes)
    requires Words(x) && s == [DOLLAR, 49, DOLLAR] + x
    ensures Executed(s, Fresh) == [DOLLAR, 49, DOLLAR] + x + []
  {
    var s1: Bytes := [49, DOLLAR] + x;
    var s2: Bytes := [DOLLAR] + x;
    assert s[1..] == s1 && s1[1..] == s2 && s2[1..] == x && x + [] == x;
    CodeIsExecuted(s, Fresh);
    CodeIsExecuted(s1, Fresh);
    NoSecondDollar(x, true);
    CodeIsExecuted(s2, Number);
    var d := WordsAreExecuted(x, Fresh, []);
    NothingLeft(d);
    assert Executed(s, Fresh) == [DOLLAR] + ([49] + ([DOLLAR] + x));
  }

  lemma {:induction false} NoSecondDollar(x: Bytes, first: bool)
    requires DOLLAR !in x
    ensures NameRest(x, first) == 0
  {
    if x == [] {
    } else {
      assert x[0] in x;
      NoSecondDollar(x[1..], false);
    }
  }

  /** A tag with a byte above 127 around a quote, then `x` and a quote. */
  lemma WideTagHides(x: Bytes)
    requires Words(x)
    ensures Hides([DOLLAR, 200, DOLLAR, QUOTE, DOLLAR, 200, DOLLAR] + x + [QUOTE], 7, x)
  {
    var before: Bytes := [DOLLAR, 200, DOLLAR, QUOTE, DOLLAR, 200, DOLLAR];
    var s := before + x + [QUOTE];
    var r := Executed(s, Fresh);
    WideTagIsExecuted(s, x);
    WideTagIsHidden(s, x);
    assert s[..3] == [DOLLAR, 200, DOLLAR];
    HiddenBetween(s, before, x, [QUOTE], r[..7], r[7 + |x|..], s[..3]);
  }

  lemma WideTagIsExecuted(s: Bytes, x: Bytes)
    requires Words(x) && s == [DOLLAR, 200, DOLLAR, QUOTE, DOLLAR, 200, DOLLAR] + x + [QUOTE]
    ensures var r := Executed(s, Fresh); r == r[..7] + x + r[7 + |x|..]
  {
    var tag: Bytes := [DOLLAR, 200, DOLLAR];
    var t := x + [QUOTE];
    var body: Bytes := [QUOTE] + tag + t;
    assert s == tag + body && s[3..] == body && s[..3] == tag && s[7..] == t;
    WideTagIsRead(s[1..]);
    assert !(tag <= body) by {
      assert body[0] == QUOTE;
    }
    assert body[1..] == tag + t && tag <= body[1..];
    assert IndexOf(body, tag) == 1;
    TokenIsSkipped(s, Fresh, 7);
    var d := WordsAreExecuted(x, Fresh, [QUOTE]);
    assert Executed(s, Fresh) == Blanks(s[..7]) + x + Executed([QUOTE], d);
  }

  lemma WideTagIsRead(t: Bytes)
    requires |t| >= 2 && t[0] == 200 && t[1] == DOLLAR
    ensures NameRest(t, true) == 2
  {
    assert t[1..][0] == DOLLAR;
  }

  lemma WideTagIsHidden(s: Bytes, x: Bytes)
    requires Words(x) && s == [DOLLAR, 200, DOLLAR, QUOTE, DOLLAR, 200, DOLLAR] + x + [QUOTE]
    ensures Sanitized(s) == s[..3] + Blanks(s[3..])
  {
    var content: Bytes := [DOLLAR, 200, DOLLAR] + x;
    var literal := s[3..];
    assert literal == [QUOTE] + content + [QUOTE] && s == [DOLLAR, 200, DOLLAR] + literal;
    NoQuoteInside(content, literal);
    ThreeKept(s, literal);
  }

  lemma ThreeKept(s: Bytes, rest: Bytes)
    requires s == [DOLLAR, 200, DOLLAR] + rest && rest != [] && rest[0] == QUOTE
    ensures Sanitized(s) == s[..3] + Sanitized(rest)
  {
    var s1: Bytes := [200, DOLLAR] + rest;
    var s2: Bytes := [DOLLAR] + rest;
    KeptInFront(s, DOLLAR, s1);
    KeptInFront(s1, 200, s2);
    KeptInFront(s2, DOLLAR, rest);
    PutTogether(s, Sanitized(rest));
  }

  lemma PutTogether(s: Bytes, r: Bytes)
    requires |s| >= 3 && s[..3] == [DOLLAR, 200, DOLLAR]
    ensures [DOLLAR] + ([200] + ([DOLLAR] + r)) == s[..3] + r
  {
  }

  lemma KeptInFront(s: Bytes, b: Byte, rest: Bytes)
    requires s == [b] + rest && rest != []
    requires (b == DOLLAR && rest[0] != DOLLAR && !IsTagByte(rest[0])) || b == 200
    ensures Sanitized(s) == [b] + Sanitized(rest)
  {
    assert s[1..] == rest;
    PlainByteIsKept(s);
  }

  lemma NoQuoteInside(content: Bytes, literal: Bytes)
    requires QUOTE !in content && literal == [QUOTE] + content + [QUOTE]
    ensures Sanitized(literal) == Blanks(literal)
  {
    NothingDoubled(content);
    WholeLiteral(literal, QUOTE, content);
  }

  lemma {:induction false} NothingDoubled(content: Bytes)
    requires QUOTE !in content
    ensures Doubled(content, QUOTE) == content
  {
    if content == [] {
    } else {
      NothingDoubled(content[1..]);
      assert content == [content[0]] + content[1..];
    }
  }

  lemma UnclosedTag(s: Bytes, tag: Bytes, x: Bytes)
    requires IsTag(tag) && s == tag + x && DOLLAR !in x
    ensures Sanitized(s) == Blanks(s)
  {
    TagIsRead(tag, x);
    NeverFound(x, tag);
    assert s[|tag|..] == x && s[..|tag|] == tag;
    BlankedToEnd(s);
  }

  lemma {:induction false} NeverFound(x: Bytes, tag: Bytes)
    requires IsTag(tag) && DOLLAR !in x
    ensures IndexOf(x, tag) == |x|
  {
    if x == [] {
    } else {
      assert x[0] in x;
      NeverFound(x[1..], tag);
    }
  }

  /** An escape string that is one quote, then `x` and a quote. */
  lemma EscapedQuoteHides(x: Bytes)
    requires Words(x) && x != []
    ensures Hides([69, QUOTE, BACKSLASH, QUOTE, QUOTE] + x + [QUOTE], 5, x)
  {
    var before: Bytes := [69, QUOTE, BACKSLASH, QUOTE, QUOTE];
    var s := before + x + [QUOTE];
    var r := Executed(s, Fresh);
    EscapeIsExecuted(s, x);
    EscapeIsHidden(s[1..], x);
    PlainByteIsKept(s);
    HiddenBetween(s, before, x, [QUOTE], r[..5], r[5 + |x|..], [69]);
  }

  lemma EscapeIsHidden(literal: Bytes, x: Bytes)
    requires Words(x) && literal == [QUOTE, BACKSLASH, QUOTE, QUOTE] + x + [QUOTE]
    ensures Sanitized(literal) == Blanks(literal)
  {
    NothingDoubled(x);
    DoubledQuote(x);
    EscapeText(literal, x, Doubled([BACKSLASH, QUOTE] + x, QUOTE));
    WholeLiteral(literal, QUOTE, [BACKSLASH, QUOTE] + x);
  }

  lemma EscapeText(literal: Bytes, x: Bytes, d: Bytes)
    requires literal == [QUOTE, BACKSLASH, QUOTE, QUOTE] + x + [QUOTE] && d == [BACKSLASH, QUOTE, QUOTE] + x
    ensures literal == [QUOTE] + d + [QUOTE]
  {
  }

  lemma DoubledQuote(x: Bytes)
    ensures Doubled([BACKSLASH, QUOTE] + x, QUOTE) == [BACKSLASH, QUOTE, QUOTE] + Doubled(x, QUOTE)
  {
    var content := [BACKSLASH, QUOTE] + x;
    assert content[1..] == [QUOTE] + x && ([QUOTE] + x)[1..] == x;
    assert Doubled([QUOTE] + x, QUOTE) == [QUOTE, QUOTE] + Doubled(x, QUOTE);
  }

  lemma WholeLiteral(literal: Bytes, q: Byte, content: Bytes)
    requires (q == QUOTE || q == DOUBLE_QUOTE) && literal == [q] + Doubled(content, q) + [q]
    ensures Sanitized(literal) == Blanks(literal)
  {
    QuotedIsBlanked(q, content, []);
    assert literal + [] == literal;
    NothingLeft(Fresh);
  }

  lemma EscapeIsExecuted(s: Bytes, x: Bytes)
    requires Words(x) && x != [] && s == [69, QUOTE, BACKSLASH, QUOTE, QUOTE] + x + [QUOTE]
    ensures var r := Executed(s, Fresh); r == r[..5] + x + r[5 + |x|..]
  {
    var s1 := [QUOTE, BACKSLASH, QUOTE, QUOTE] + (x + [QUOTE]);
    assert s[1..] == s1 && s1[4..] == x + [QUOTE];
    CodeIsExecuted(s, Fresh);
    EscapedQuoteEnds(s1[1..], x);
    TokenIsSkipped(s1, Prefix, 4);
    var d := WordsAreExecuted(x, Escaped(false), [QUOTE]);
    assert Executed(s, Fresh) == ([s[0]] + Blanks(s1[..4])) + x + Executed([QUOTE], d);
  }

  lemma EscapedQuoteEnds(s: Bytes, x: Bytes)
    requires Words(x) && x != [] && s == [BACKSLASH, QUOTE, QUOTE] + (x + [QUOTE])
    ensures EscapeEnd(s) == 3
  {
    assert s[2..] == [QUOTE] + (x + [QUOTE]);
    assert EscapeEnd(s[2..]) == 1;
  }

  /** A comment inside a comment, a quote before the outer one closes, `x` and a quote. */
  lemma NestedHides(x: Bytes)
    requires Words(x)
    ensures Hides([SLASH, STAR, SLASH, STAR, STAR, SLASH, QUOTE, STAR, SLASH] + x + [QUOTE], 9, x)
  {
    var before := [SLASH, STAR, SLASH, STAR, STAR, SLASH, QUOTE, STAR, SLASH];
    var s := before + x + [QUOTE];
    var r := Executed(s, Fresh);
    NestedIsExecuted(s, x);
    NestedIsHidden(s, x);
    HiddenBetween(s, before, x, [QUOTE], r[..9], r[9 + |x|..], Blanks(s[..6]));
  }

  lemma NestedIsHidden(s: Bytes, x: Bytes)
    requires Words(x) && s == [SLASH, STAR, SLASH, STAR, STAR, SLASH, QUOTE, STAR, SLASH] + x + [QUOTE]
    ensures Sanitized(s) == Blanks(s[..6]) + Blanks(s[6..])
  {
    var comment := [SLASH, STAR] + [SLASH, STAR] + [STAR, SLASH];
    var literal := [QUOTE] + ([STAR, SLASH] + x) + [QUOTE];
    assert s == comment + literal && s[..6] == comment && s[6..] == literal;
    BlockCommentIsBlanked([SLASH, STAR], literal);
    LiteralIsHidden(x, literal);
  }

  lemma LiteralIsHidden(x: Bytes, literal: Bytes)
    requires Words(x) && literal == [QUOTE] + ([STAR, SLASH] + x) + [QUOTE]
    ensures Sanitized(literal) == Blanks(literal)
  {
    var content := [STAR, SLASH] + x;
    NothingDoubled(x);
    assert content[1..] == [SLASH] + x && content[1..][1..] == x;
    assert Doubled(content, QUOTE) == [STAR] + ([SLASH] + x);
    assert Doubled(content, QUOTE) == content;
    WholeLiteral(literal, QUOTE, content);
  }

  lemma NestedIsExecuted(s: Bytes, x: Bytes)
    requires Words(x) && s == [SLASH, STAR, SLASH, STAR, STAR, SLASH, QUOTE, STAR, SLASH] + x + [QUOTE]
    ensures var r := Executed(s, Fresh); r == r[..9] + x + r[9 + |x|..]
  {
    var t := x + [QUOTE];
    var s1, s2 := [SLASH, STAR, STAR, SLASH, QUOTE, STAR, SLASH] + t, [STAR, SLASH, QUOTE, STAR, SLASH] + t;
    var s3, s4 := [QUOTE, STAR, SLASH] + t, [STAR, SLASH] + t;
    assert s[2..] == s1 && s1[2..] == s2 && s2[2..] == s3 && s3[1..] == s4 && s[9..] == t;
    assert NestedEnd(s4, 0) == 2 && NestedEnd(s3, 0) == 3;
    assert NestedEnd(s2, 1) == 5 && NestedEnd(s1, 0) == 7;
    TokenIsSkipped(s, Fresh, 9);
    var d := WordsAreExecuted(x, Fresh, [QUOTE]);
    assert Executed(s, Fresh) == Blanks(s[..9]) + x + Executed([QUOTE], d);
  }
}
