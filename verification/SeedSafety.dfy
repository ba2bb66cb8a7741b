/** What sanitising guarantees, and the statement splitter with its line numbers. */
module SeedSafety {
  import opened SeedSanitizer
  import Text

  // ----- positions

  /** Every byte is kept or blanked, and newlines stay where they are. */
  ghost predicate SameLayout(s: Bytes, r: Bytes) {
    |r| == |s| && forall k :: 0 <= k < |s| ==> r[k] == s[k] || (r[k] == SPACE && s[k] != NEWLINE)
  }

  lemma LayoutConcat(a: Bytes, b: Bytes, c: Bytes, d: Bytes)
    requires SameLayout(a, b) && SameLayout(c, d)
    ensures SameLayout(a + c, b + d)
  {
  }

  lemma {:induction false} SanitizedKeepsLayout(s: Bytes)
    ensures SameLayout(s, Sanitized(s))
    decreases |s|
  {
    if s == [] {
    } else {
      if Plain(s) {
        SanitizedKeepsLayout(s[1..]);
        LayoutConcat([s[0]], [s[0]], s[1..], Sanitized(s[1..]));
        assert s == [s[0]] + s[1..];
      } else {
        var n := TokenLength(s);
        SanitizedKeepsLayout(s[n..]);
        LayoutConcat(s[..n], Blanks(s[..n]), s[n..], Sanitized(s[n..]));
        assert s == s[..n] + s[n..];
      }
    }
  }

  // ----- nothing is left to blank

  /** No quote, comment opening or dollar tag begins anywhere. */
  predicate Clean(s: Bytes) {
    s == [] || (Plain(s) && Clean(s[1..]))
  }

  lemma {:induction false} CleanEverywhere(s: Bytes, k: nat)
    requires Clean(s) && k <= |s|
    ensures Plain(s[k..]) && Clean(s[k..])
  {
    if k == 0 {
    } else {
      CleanEverywhere(s[1..], k - 1);
      assert s[1..][k - 1..] == s[k..];
    }
  }

  /** Clean in plain words. */
  lemma CleanMeans(s: Bytes, k: nat)
    requires Clean(s) && k < |s|
    ensures s[k] != QUOTE && s[k] != DOUBLE_QUOTE
    ensures k + 1 < |s| ==> !(s[k] == DASH && s[k + 1] == DASH) && !(s[k] == SLASH && s[k + 1] == STAR)
    ensures !StartsTag(s[k..])
  {
    CleanEverywhere(s, k);
    assert s[k..][0] == s[k];
  }

  /** A tag seen after blanking was there before. */
  lemma {:induction false} TagWasThere(s: Bytes, r: Bytes)
    requires SameLayout(s, r) && TagRest(r) > 0
    ensures TagRest(s) > 0
  {
    if r[0] != DOLLAR {
      TagWasThere(s[1..], r[1..]);
    }
  }

  lemma PlainAfterBlanking(s: Bytes, r: Bytes)
    requires SameLayout(s, r) && s != [] && Plain(s)
    ensures Plain([s[0]] + r[1..])
  {
    var t := [s[0]] + r[1..];
    assert t[1..] == r[1..];
    if StartsTag(t) {
      TagWasThere(s[1..], r[1..]);
    }
  }

  lemma {:induction false} CleanBlanks(b: Bytes, s: Bytes)
    requires Clean(s) && forall k :: 0 <= k < |b| ==> b[k] == SPACE || b[k] == NEWLINE
    ensures Clean(b + s)
  {
    if b == [] {
      assert b + s == s;
    } else {
      CleanBlanks(b[1..], s);
      assert (b + s)[1..] == b[1..] + s;
      assert (b + s)[0] == b[0];
    }
  }

  /** The sanitised text is clean, whatever the file holds. */
  lemma {:induction false} SanitizedIsClean(s: Bytes)
    ensures Clean(Sanitized(s))
    decreases |s|
  {
    if s == [] {
    } else {
      if Plain(s) {
        SanitizedIsClean(s[1..]);
        SanitizedKeepsLayout(s);
        PlainAfterBlanking(s, Sanitized(s));
        assert Sanitized(s)[1..] == Sanitized(s[1..]);
        assert Sanitized(s) == [s[0]] + Sanitized(s)[1..];
      } else {
        var n := TokenLength(s);
        SanitizedIsClean(s[n..]);
        CleanBlanks(Blanks(s[..n]), Sanitized(s[n..]));
      }
    }
  }

  lemma {:induction false} CleanIsFixed(s: Bytes)
    requires Clean(s)
    ensures Sanitized(s) == s
  {
    if s == [] {
    } else {
      CleanIsFixed(s[1..]);
      assert s == [s[0]] + s[1..];
    }
  }

  /** Sanitising changes nothing exactly when the text is clean; so it is idempotent. */
  lemma FixedExactlyWhenClean(s: Bytes)
    ensures Sanitized(s) == s <==> Clean(s)
    ensures Sanitized(Sanitized(s)) == Sanitized(s)
  {
    SanitizedIsClean(s);
    CleanIsFixed(Sanitized(s));
    if Clean(s) {
      CleanIsFixed(s);
    }
  }

  // ----- the lexical rules, read off the text

  /** No comment or literal begins within the first `n` bytes. */
  predicate PlainFor(s: Bytes, n: nat) {
    n == 0 || (s != [] && Plain(s) && PlainFor(s[1..], n - 1))
  }

  lemma PlainByteIsKept(s: Bytes)
    requires s != [] && Plain(s)
    ensures Sanitized(s) == [s[0]] + Sanitized(s[1..])
  {
  }

  lemma PrefixFromTail(s: Bytes, n: nat, rest: Bytes)
    requires 0 < n <= |s|
    ensures [s[0]] + (s[1..][..n - 1] + rest) == s[..n] + rest
  {
    assert s[..n] == [s[0]] + s[1..][..n - 1];
  }

  /** Code before the first comment or literal is kept. */
  lemma {:induction false} CodeIsKept(s: Bytes, n: nat)
    requires n <= |s| && PlainFor(s, n)
    ensures Sanitized(s) == s[..n] + Sanitized(s[n..])
  {
    if n == 0 {
      assert s[0..] == s && s[..0] == [];
    } else {
      CodeIsKept(s[1..], n - 1);
      PlainByteIsKept(s);
      assert s[1..][n - 1..] == s[n..];
      PrefixFromTail(s, n, Sanitized(s[n..]));
    }
  }

  lemma {:induction false} LineEndAt(body: Bytes, rest: Bytes)
    requires NEWLINE !in body
    ensures LineEnd(body + [NEWLINE] + rest) == |body|
  {
    var s := body + [NEWLINE] + rest;
    if body == [] {
    } else {
      LineEndAt(body[1..], rest);
      assert s[1..] == body[1..] + [NEWLINE] + rest;
    }
  }

  lemma LineCommentLength(s: Bytes, body: Bytes, rest: Bytes)
    requires NEWLINE !in body && StartsWith(s, DASH, DASH) && s[2..] == body + [NEWLINE] + rest
    ensures !Plain(s) && TokenLength(s) == 2 + |body|
  {
    LineEndAt(body, rest);
  }

  /** A line comment is blanked up to its newline, and no further. */
  lemma LineCommentIsBlanked(body: Bytes, rest: Bytes)
    requires NEWLINE !in body
    ensures Sanitized([DASH, DASH] + body + [NEWLINE] + rest) ==
            Blanks([DASH, DASH] + body) + Sanitized([NEWLINE] + rest)
  {
    var s := [DASH, DASH] + body + [NEWLINE] + rest;
    assert s == ([DASH, DASH] + body) + ([NEWLINE] + rest) && s[2..] == body + [NEWLINE] + rest;
    LineCommentLength(s, body, rest);
    TokenIsBlanked(s, [DASH, DASH] + body, [NEWLINE] + rest);
  }

  /** The text of a literal with each quote in it doubled, as SQL writes it. */
  function Doubled(content: Bytes, q: Byte): Bytes {
    if content == [] then []
    else (if content[0] == q then [q, q] else [content[0]]) + Doubled(content[1..], q)
  }

  lemma {:induction false} QuoteEndAt(content: Bytes, q: Byte, rest: Bytes)
    requires rest == [] || rest[0] != q
    ensures QuoteEnd(Doubled(content, q) + [q] + rest, q) == |Doubled(content, q)| + 1
  {
    var s := Doubled(content, q) + [q] + rest;
    if content == [] {
    } else {
      var tail := Doubled(content[1..], q);
      QuoteEndAt(content[1..], q, rest);
      if content[0] == q {
        assert s[2..] == tail + [q] + rest;
      } else {
        assert s[1..] == tail + [q] + rest;
      }
    }
  }

  lemma QuoteLength(s: Bytes, q: Byte, body: Bytes, rest: Bytes)
    requires q == QUOTE || q == DOUBLE_QUOTE
    requires s != [] && s[0] == q && s[1..] == body + [q] + rest
    requires QuoteEnd(body + [q] + rest, q) == |body| + 1
    ensures !Plain(s) && TokenLength(s) == |body| + 2
  {
  }

  lemma QuotedToken(s: Bytes, literal: Bytes, q: Byte, body: Bytes, rest: Bytes)
    requires q == QUOTE || q == DOUBLE_QUOTE
    requires literal == [q] + body + [q] && s == literal + rest
    requires QuoteEnd(body + [q] + rest, q) == |body| + 1
    ensures Sanitized(s) == Blanks(literal) + Sanitized(rest)
  {
    assert s[1..] == body + [q] + rest;
    QuoteLength(s, q, body, rest);
    TokenIsBlanked(s, literal, rest);
  }

  /** A quoted literal, whatever it says with its quotes doubled, is blanked through its closing
      quote, and no further. */
  lemma QuotedIsBlanked(q: Byte, content: Bytes, rest: Bytes)
    requires q == QUOTE || q == DOUBLE_QUOTE
    requires rest == [] || rest[0] != q
    ensures var literal := [q] + Doubled(content, q) + [q];
            Sanitized(literal + rest) == Blanks(literal) + Sanitized(rest)
  {
    var literal := [q] + Doubled(content, q) + [q];
    QuoteEndAt(content, q, rest);
    QuotedToken(literal + rest, literal, q, Doubled(content, q), rest);
  }

  lemma TokenIsBlanked(s: Bytes, token: Bytes, rest: Bytes)
    requires s == token + rest && s != [] && !Plain(s) && TokenLength(s) == |token|
    ensures Sanitized(s) == Blanks(token) + Sanitized(rest)
  {
    assert s[..|token|] == token && s[|token|..] == rest;
  }

  /** No comment closing begins at any byte of `body`, read with what follows it. */
  predicate NeverCloses(body: Bytes, after: Byte) {
    forall k :: 0 <= k < |body| ==>
      !(body[k] == STAR && (if k + 1 < |body| then body[k + 1] else after) == SLASH)
  }

  lemma {:induction false} BlockEndAt(body: Bytes, rest: Bytes)
    requires NeverCloses(body, STAR)
    ensures BlockEnd(body + [STAR, SLASH] + rest) == |body| + 2
  {
    var s := body + [STAR, SLASH] + rest;
    if body == [] {
    } else {
      assert s[0] == body[0] && s[1] == if 1 < |body| then body[1] else STAR;
      BlockEndAt(body[1..], rest);
      assert s[1..] == body[1..] + [STAR, SLASH] + rest;
    }
  }

  lemma BlockLength(s: Bytes, body: Bytes, rest: Bytes)
    requires NeverCloses(body, STAR) && StartsWith(s, SLASH, STAR) && s[2..] == body + [STAR, SLASH] + rest
    ensures !Plain(s) && TokenLength(s) == |body| + 4
  {
    BlockEndAt(body, rest);
  }

  /** A block comment is blanked through its first closing; comments do not nest. */
  lemma BlockCommentIsBlanked(body: Bytes, rest: Bytes)
    requires NeverCloses(body, STAR)
    ensures var comment := [SLASH, STAR] + body + [STAR, SLASH];
            Sanitized(comment + rest) == Blanks(comment) + Sanitized(rest)
  {
    var comment := [SLASH, STAR] + body + [STAR, SLASH];
    var s := comment + rest;
    assert s[2..] == body + [STAR, SLASH] + rest;
    BlockLength(s, body, rest);
    TokenIsBlanked(s, comment, rest);
  }

  /** A dollar tag: a possibly empty name between two dollars. */
  predicate IsTag(tag: Bytes) {
    && |tag| >= 2 && tag[0] == DOLLAR && tag[|tag| - 1] == DOLLAR
    && forall k :: 0 < k < |tag| - 1 ==> IsTagByte(tag[k]) && tag[k] != DOLLAR
  }

  lemma {:induction false} TagRestAt(name: Bytes, rest: Bytes)
    requires forall k :: 0 <= k < |name| ==> IsTagByte(name[k]) && name[k] != DOLLAR
    ensures TagRest(name + [DOLLAR] + rest) == |name| + 1
  {
    var s := name + [DOLLAR] + rest;
    if name == [] {
    } else {
      TagRestAt(name[1..], rest);
      assert s[1..] == name[1..] + [DOLLAR] + rest;
    }
  }

  lemma TagIsRead(tag: Bytes, rest: Bytes)
    requires IsTag(tag)
    ensures StartsTag(tag + rest) && TagLength(tag + rest) == |tag|
  {
    var name := tag[1..|tag| - 1];
    TagRestAt(name, rest);
    assert (tag + rest)[1..] == name + [DOLLAR] + rest;
  }

  /** `tag` begins nowhere inside `body`, read with the tag behind it. */
  predicate FirstAfter(body: Bytes, tag: Bytes) {
    forall k :: 0 <= k < |body| ==> !(tag <= (body + tag)[k..])
  }

  lemma {:induction false} IndexOfAt(body: Bytes, tag: Bytes, rest: Bytes)
    requires tag != [] && FirstAfter(body, tag)
    ensures IndexOf(body + tag + rest, tag) == |body|
  {
    var s := body + tag + rest;
    if body == [] {
      assert s == tag + rest;
    } else {
      NotYet(body, tag, rest);
      forall k | 0 <= k < |body[1..]|
        ensures !(tag <= (body[1..] + tag)[k..])
      {
        assert (body[1..] + tag)[k..] == (body + tag)[k + 1..];
      }
      IndexOfAt(body[1..], tag, rest);
      assert s[1..] == body[1..] + tag + rest;
    }
  }

  lemma NotYet(body: Bytes, tag: Bytes, rest: Bytes)
    requires body != [] && FirstAfter(body, tag)
    ensures !(tag <= body + tag + rest)
  {
    assert (body + tag)[0..] == body + tag;
    assert (body + tag + rest)[..|tag|] == (body + tag)[..|tag|];
  }

  lemma DollarLength(s: Bytes, tag: Bytes, body: Bytes, rest: Bytes)
    requires IsTag(tag) && FirstAfter(body, tag) && s == tag + (body + tag + rest)
    ensures !Plain(s) && TokenLength(s) == |tag| + |body| + |tag|
  {
    TagIsRead(tag, body + tag + rest);
    IndexOfAt(body, tag, rest);
    assert s[|tag|..] == body + tag + rest && s[..|tag|] == tag;
  }

  /** A dollar-quoted literal is blanked through the first occurrence of its own tag: other tags,
      quotes and comments inside it do not count. */
  lemma DollarQuotedIsBlanked(tag: Bytes, body: Bytes, rest: Bytes)
    requires IsTag(tag) && FirstAfter(body, tag)
    ensures var literal := tag + body + tag;
            Sanitized(literal + rest) == Blanks(literal) + Sanitized(rest)
  {
    var literal := tag + body + tag;
    var s := literal + rest;
    assert s == tag + (body + tag + rest);
    DollarLength(s, tag, body, rest);
    TokenIsBlanked(s, literal, rest);
  }

  // ----- lines

  const SEMICOLON: Byte := 59

  function Newlines(s: Bytes): nat {
    if s == [] then 0 else (if s[0] == NEWLINE then 1 else 0) + Newlines(s[1..])
  }

  lemma {:induction false} NewlinesConcat(s: Bytes, t: Bytes)
    ensures Newlines(s + t) == Newlines(s) + Newlines(t)
  {
    if s == [] {
      assert s + t == t;
    } else {
      NewlinesConcat(s[1..], t);
      assert (s + t)[1..] == s[1..] + t;
    }
  }

  lemma {:induction false} SameLayoutSameLines(s: Bytes, r: Bytes)
    requires SameLayout(s, r)
    ensures Newlines(r) == Newlines(s)
  {
    if s == [] {
    } else {
      SameLayoutSameLines(s[1..], r[1..]);
    }
  }

  /** The length of the white space character a text begins with, in UTF-8, or 0. */
  function SpaceLength(s: Bytes): (n: nat)
    ensures n <= |s| && n <= 3
  {
    if |s| >= 1 && (9 <= s[0] <= 13 || s[0] == 32) then 1
    else if |s| >= 2 && s[0] == 0xC2 && (s[1] == 0x85 || s[1] == 0xA0) then 2
    else if |s| >= 3 && WideSpace(s[0], s[1], s[2]) then 3
    else 0
  }

  predicate WideSpace(a: Byte, b: Byte, c: Byte) {
    || (a == 0xE1 && b == 0x9A && c == 0x80)
    || (a == 0xE2 && b == 0x80 && (0x80 <= c <= 0x8A || c == 0xA8 || c == 0xA9 || c == 0xAF))
    || (a == 0xE2 && b == 0x81 && c == 0x9F)
    || (a == 0xE3 && b == 0x80 && c == 0x80)
  }

  /** The UTF-8 bytes of a character. */
  function Encode(c: char): (b: Bytes)
    ensures 1 <= |b| <= 4
  {
    var n := c as int;
    if n < 0x80 then [n as Byte]
    else if n < 0x800 then [(0xC0 + n / 64) as Byte, (0x80 + n % 64) as Byte]
    else if n < 0x10000 then [(0xE0 + n / 4096) as Byte, (0x80 + n / 64 % 64) as Byte, (0x80 + n % 64) as Byte]
    else [(0xF0 + n / 262144) as Byte, (0x80 + n / 4096 % 64) as Byte, (0x80 + n / 64 % 64) as Byte, (0x80 + n % 64) as Byte]
  }

  /** Byte by byte, the white space is that of the characters. */
  lemma SpacesAreCharacters(c: char, rest: Bytes)
    ensures SpaceLength(Encode(c) + rest) == if Text.IsSpace(c) then |Encode(c)| else 0
  {
    var n := c as int;
    var s := Encode(c) + rest;
    if n < 0x80 {
      assert s[0] as int == n;
    } else if n < 0x800 {
      assert s[0] as int == 0xC0 + n / 64 && s[1] as int == 0x80 + n % 64;
    } else if n < 0x10000 {
      ThreeByteSpaces(n, s[0], s[1], s[2]);
      assert s[0] >= 0xE0;
    } else {
      assert s[0] >= 0xF0;
    }
  }

  lemma ThreeByteSpaces(n: int, a: Byte, b: Byte, c: Byte)
    requires 0x800 <= n < 0x10000
    requires a as int == 0xE0 + n / 4096 && b as int == 0x80 + n / 64 % 64 && c as int == 0x80 + n % 64
    ensures WideSpace(a, b, c) <==>
            n == 0x1680 || 0x2000 <= n <= 0x200A || n == 0x2028 || n == 0x2029 || n == 0x202F || n == 0x205F || n == 0x3000
  {
    assert n == (a as int - 0xE0) * 4096 + (b as int - 0x80) * 64 + (c as int - 0x80);
  }

  /** The white space at the beginning of a text. */
  function Lead(s: Bytes): (n: nat)
    ensures n <= |s|
  {
    var k := SpaceLength(s);
    if k == 0 then 0 else k + Lead(s[k..])
  }

  /** `strings.TrimSpace` of it is empty. */
  predicate AllSpace(s: Bytes) {
    Lead(s) == |s|
  }

  /** The newlines of the leading white space. */
  function LeadLines(s: Bytes): nat {
    var k := SpaceLength(s);
    if k == 0 then 0 else (if s[0] == NEWLINE then 1 else 0) + LeadLines(s[k..])
  }

  lemma {:induction false} NoNewlines(s: Bytes)
    requires NEWLINE !in s
    ensures Newlines(s) == 0
  {
    if s == [] {
    } else {
      NoNewlines(s[1..]);
    }
  }

  lemma OneSpaceLines(s: Bytes)
    ensures Newlines(s[..SpaceLength(s)]) == if s != [] && s[0] == NEWLINE then 1 else 0
  {
    var t := s[..SpaceLength(s)];
    if t != [] && s[0] == NEWLINE {
      assert t[1..] == [];
    } else {
      assert NEWLINE !in t;
      NoNewlines(t);
    }
  }

  lemma {:induction false} LeadLinesCounts(s: Bytes)
    ensures LeadLines(s) == Newlines(s[..Lead(s)])
  {
    var k := SpaceLength(s);
    if k > 0 {
      LeadLinesCounts(s[k..]);
      OneSpaceLines(s);
      NewlinesConcat(s[..k], s[k..][..Lead(s[k..])]);
      assert s[..Lead(s)] == s[..k] + s[k..][..Lead(s[k..])];
    } else {
      assert s[..0] == [];
    }
  }

  lemma SpaceLengthSnoc(s: Bytes, b: Byte)
    ensures SpaceLength(s) > 0 ==> SpaceLength(s + [b]) == SpaceLength(s)
    ensures SpaceLength(s) == 0 && SpaceLength(s + [b]) > 0 ==> SpaceLength(s + [b]) == |s| + 1
  {
  }

  lemma LeadLinesOfOne(t: Bytes)
    requires t != [] && SpaceLength(t) == |t| && t[0] != NEWLINE
    ensures LeadLines(t) == 0
  {
    assert t[|t|..] == [];
  }

  /** Appending a byte that is no newline adds no line to the leading white space. */
  lemma {:induction false} LeadLinesSkip(s: Bytes, b: Byte)
    requires b != NEWLINE
    ensures LeadLines(s + [b]) == LeadLines(s)
  {
    var k := SpaceLength(s);
    SpaceLengthSnoc(s, b);
    if k > 0 {
      LeadLinesSkip(s[k..], b);
      assert (s + [b])[k..] == s[k..] + [b];
    } else if SpaceLength(s + [b]) > 0 {
      LeadLinesOfOne(s + [b]);
    }
  }

  /** Appending a newline adds one exactly when everything before it is white space. */
  lemma {:induction false} LeadLinesNewline(s: Bytes)
    ensures AllSpace(s + [NEWLINE]) ==> LeadLines(s + [NEWLINE]) == Newlines(s + [NEWLINE])
    ensures !AllSpace(s + [NEWLINE]) ==> LeadLines(s + [NEWLINE]) == LeadLines(s)
  {
    var t := s + [NEWLINE];
    var k := SpaceLength(s);
    if k > 0 {
      LeadLinesNewline(s[k..]);
      assert t[k..] == s[k..] + [NEWLINE];
      assert SpaceLength(t) == k;
    } else if s == [] {
      assert t[1..] == [];
    } else {
      assert SpaceLength(t) == 0;
    }
    if AllSpace(t) {
      LeadLinesCounts(t);
      assert t[..|t|] == t;
    }
  }

  // ----- statements

  datatype Statement = Statement(text: Bytes, line: nat)

  function Texts(stmts: seq<Statement>): Bytes {
    if stmts == [] then [] else Texts(stmts[..|stmts| - 1]) + stmts[|stmts| - 1].text
  }

  /** A semicolon ends a statement, and only the last statement may lack it. */
  predicate EndsAtSemicolon(text: Bytes) {
    text != [] && text[|text| - 1] == SEMICOLON && SEMICOLON !in text[..|text| - 1]
  }

  /** Each statement's line is one plus the newlines before its first byte that is not white space. */
  ghost predicate LineRight(stmts: seq<Statement>, i: nat)
    requires i < |stmts|
  {
    stmts[i].line == 1 + Newlines(Texts(stmts[..i]) + stmts[i].text[..Lead(stmts[i].text)])
  }

  ghost predicate LinesRight(stmts: seq<Statement>) {
    forall i {:trigger LineRight(stmts, i)} :: 0 <= i < |stmts| ==> LineRight(stmts, i)
  }

  ghost predicate AllTerminated(stmts: seq<Statement>) {
    forall i :: 0 <= i < |stmts| ==> EndsAtSemicolon(stmts[i].text)
  }

  lemma LinesRightSnoc(stmts: seq<Statement>, x: Statement)
    requires LinesRight(stmts) && x.line == 1 + Newlines(Texts(stmts)) + LeadLines(x.text)
    ensures LinesRight(stmts + [x])
  {
    var all := stmts + [x];
    LeadLinesCounts(x.text);
    NewlinesConcat(Texts(stmts), x.text[..Lead(x.text)]);
    forall i | 0 <= i < |all|
      ensures LineRight(all, i)
    {
      assert i < |stmts| ==> LineRight(stmts, i);
      assert all[..i] == stmts[..i];
      assert i == |stmts| ==> stmts[..i] == stmts;
    }
  }

  lemma TextsSnoc(stmts: seq<Statement>, x: Statement)
    ensures Texts(stmts + [x]) == Texts(stmts) + x.text
  {
    assert (stmts + [x])[..|stmts|] == stmts;
  }

  lemma OneByteLines(s: Bytes, b: Byte)
    ensures Newlines(s + [b]) == Newlines(s) + if b == NEWLINE then 1 else 0
  {
    NewlinesConcat(s, [b]);
    assert [b][1..] == [];
  }

  /** The line a statement begins on after one more byte, `piece` being the statement so far. */
  lemma NextStart(before: Bytes, piece: Bytes, b: Byte, newLine: nat, startLine: nat, newStart: nat)
    requires newLine == 1 + Newlines(before + (piece + [b]))
    requires startLine == 1 + Newlines(before) + LeadLines(piece)
    requires newStart == if b == NEWLINE && AllSpace(piece + [b]) then newLine else startLine
    ensures newStart == 1 + Newlines(before) + LeadLines(piece + [b])
  {
    if b == NEWLINE {
      LeadLinesNewline(piece);
      NewlinesConcat(before, piece + [b]);
    } else {
      LeadLinesSkip(piece, b);
    }
  }

  /** One byte further: how the statement's line changes when the byte is no semicolon. */
  lemma NextByte(sql: Bytes, start: nat, i: nat, line: nat, startLine: nat, newLine: nat, newStart: nat)
    requires start <= i < |sql| && line == 1 + Newlines(sql[..i])
    requires startLine == 1 + Newlines(sql[..start]) + LeadLines(sql[start..i])
    requires newLine == if sql[i] == NEWLINE then line + 1 else line
    requires newStart == if sql[i] == NEWLINE && AllSpace(sql[start..i + 1]) then newLine else startLine
    ensures newLine == 1 + Newlines(sql[..i + 1])
    ensures newStart == 1 + Newlines(sql[..start]) + LeadLines(sql[start..i + 1])
  {
    SliceNext(sql, start, i);
    OneByteLines(sql[..i], sql[i]);
    NextStart(sql[..start], sql[start..i], sql[i], newLine, startLine, newStart);
  }

  lemma SliceNext(sql: Bytes, start: nat, i: nat)
    requires start <= i < |sql|
    ensures sql[..i + 1] == sql[..i] + [sql[i]] == sql[..start] + (sql[start..i] + [sql[i]])
    ensures sql[start..i + 1] == sql[start..i] + [sql[i]]
  {
  }

  /** The pieces put together are the text, a semicolon is the last byte of its piece, only the
      last piece may lack one, and every line is right. */
  ghost predicate IsSplit(sql: Bytes, stmts: seq<Statement>) {
    && Texts(stmts) == sql
    && LinesRight(stmts)
    && (AllTerminated(stmts) || LastOpen(stmts))
  }

  ghost predicate LastOpen(stmts: seq<Statement>) {
    && stmts != [] && AllTerminated(stmts[..|stmts| - 1])
    && stmts[|stmts| - 1].text != [] && SEMICOLON !in stmts[|stmts| - 1].text
  }

  /** The splitter's loop state after the first `i` bytes: the pieces before `start`, and the two
      line counters. */
  ghost predicate Pieces(sql: Bytes, start: nat, stmts: seq<Statement>) {
    start <= |sql| && Texts(stmts) == sql[..start] && AllTerminated(stmts) && LinesRight(stmts)
  }

  ghost predicate Counters(sql: Bytes, i: nat, start: nat, line: nat, startLine: nat) {
    && start <= i <= |sql| && SEMICOLON !in sql[start..i]
    && line == 1 + Newlines(sql[..i])
    && startLine == 1 + Newlines(sql[..start]) + LeadLines(sql[start..i])
  }

  lemma AddPiece(sql: Bytes, start: nat, end: nat, startLine: nat, stmts: seq<Statement>)
    requires Pieces(sql, start, stmts) && start <= end <= |sql|
    requires startLine == 1 + Newlines(sql[..start]) + LeadLines(sql[start..end])
    ensures var all := stmts + [Statement(sql[start..end], startLine)];
            Texts(all) == sql[..end] && LinesRight(all) && all[..|stmts|] == stmts
  {
    var stmt := Statement(sql[start..end], startLine);
    LinesRightSnoc(stmts, stmt);
    TextsSnoc(stmts, stmt);
    assert sql[..end] == sql[..start] + sql[start..end];
  }

  lemma StepSemicolon(sql: Bytes, i: nat, start: nat, line: nat, startLine: nat, stmts: seq<Statement>)
    requires i < |sql| && sql[i] == SEMICOLON
    requires Pieces(sql, start, stmts) && Counters(sql, i, start, line, startLine)
    ensures Pieces(sql, i + 1, stmts + [Statement(sql[start..i + 1], startLine)])
    ensures Counters(sql, i + 1, i + 1, line, line)
  {
    NextByte(sql, start, i, line, startLine, line, startLine);
    AddPiece(sql, start, i + 1, startLine, stmts);
    var text := sql[start..i + 1];
    assert text[..|text| - 1] == sql[start..i];
    assert EndsAtSemicolon(text);
    FreshStatement(sql, i + 1, line);
  }

  lemma FreshStatement(sql: Bytes, i: nat, line: nat)
    requires i <= |sql| && line == 1 + Newlines(sql[..i])
    ensures Counters(sql, i, i, line, line)
  {
    assert sql[i..i] == [];
  }

  lemma StepOther(sql: Bytes, i: nat, start: nat, line: nat, startLine: nat, newLine: nat, newStart: nat)
    requires i < |sql| && sql[i] != SEMICOLON && Counters(sql, i, start, line, startLine)
    requires newLine == if sql[i] == NEWLINE then line + 1 else line
    requires newStart == if sql[i] == NEWLINE && AllSpace(sql[start..i + 1]) then newLine else startLine
    ensures Counters(sql, i + 1, start, newLine, newStart)
  {
    NextByte(sql, start, i, line, startLine, newLine, newStart);
    NoSemicolon(sql, start, i);
  }

  lemma NoSemicolon(sql: Bytes, start: nat, i: nat)
    requires start <= i < |sql| && sql[i] != SEMICOLON && SEMICOLON !in sql[start..i]
    ensures SEMICOLON !in sql[start..i + 1]
  {
    assert sql[start..i + 1] == sql[start..i] + [sql[i]];
  }

  lemma StepEnd(sql: Bytes, start: nat, line: nat, startLine: nat, stmts: seq<Statement>)
    requires Pieces(sql, start, stmts) && Counters(sql, |sql|, start, line, startLine)
    ensures IsSplit(sql, if start < |sql| then stmts + [Statement(sql[start..], startLine)] else stmts)
  {
    assert sql[start..|sql|] == sql[start..] && sql[..|sql|] == sql;
    if start < |sql| {
      AddPiece(sql, start, |sql|, startLine, stmts);
    }
  }

  method SplitStatements(sql: Bytes) returns (stmts: seq<Statement>)
    ensures IsSplit(sql, stmts)
  {
    stmts := [];
    var startLine, line, start := 1, 1, 0;
    for i := 0 to |sql|
      invariant Pieces(sql, start, stmts) && Counters(sql, i, start, line, startLine)
    {
      if sql[i] == SEMICOLON {
        StepSemicolon(sql, i, start, line, startLine, stmts);
        stmts := stmts + [Statement(sql[start..i + 1], startLine)];
        start := i + 1;
        startLine := line;
      } else {
        ghost var was, wasStart := line, startLine;
        if sql[i] == NEWLINE {
          line := line + 1;
          if AllSpace(sql[start..i + 1]) {
            startLine := line;
          }
        }
        StepOther(sql, i, start, was, wasStart, line, startLine);
      }
    }
    StepEnd(sql, start, line, startLine, stmts);
    if start < |sql| {
      stmts := stmts + [Statement(sql[start..], startLine)];
    }
  }

  // ----- diagnostics point at the original file

  datatype Diagnostic = Diagnostic(line: nat, text: Bytes)

  lemma {:induction false} TextsPrefix(stmts: seq<Statement>, i: nat)
    requires i < |stmts|
    ensures |Texts(stmts[..i])| + |stmts[i].text| <= |Texts(stmts)|
    ensures Texts(stmts)[..|Texts(stmts[..i])| + |stmts[i].text|] == Texts(stmts[..i]) + stmts[i].text
    decreases |stmts|
  {
    var n := |stmts| - 1;
    if i < n {
      TextsPrefix(stmts[..n], i);
      assert stmts[..n][..i] == stmts[..i];
      var m := |Texts(stmts[..i])| + |stmts[i].text|;
      assert Texts(stmts)[..m] == Texts(stmts[..n])[..m];
    } else {
      assert Texts(stmts)[..|Texts(stmts)|] == Texts(stmts);
    }
  }

  /** `t` is the first statement of `rest`: through the first semicolon, or all of it. */
  ghost predicate FirstPiece(rest: Bytes, t: Bytes) {
    && t != [] && |t| <= |rest| && t == rest[..|t|]
    && (EndsAtSemicolon(t) || (|t| == |rest| && SEMICOLON !in t))
  }

  lemma FirstPieceIsUnique(rest: Bytes, s: Bytes, t: Bytes)
    requires FirstPiece(rest, s) && FirstPiece(rest, t)
    ensures s == t
  {
    ShorterPiece(rest, s, t);
    ShorterPiece(rest, t, s);
  }

  lemma ShorterPiece(rest: Bytes, s: Bytes, t: Bytes)
    requires FirstPiece(rest, s) && FirstPiece(rest, t)
    ensures |t| <= |s|
  {
    forall j | 0 <= j < |t| - 1
      ensures t[j] != SEMICOLON
    {
      assert t[j] == t[..|t| - 1][j];
    }
    assert forall j :: 0 <= j < |s| && j < |t| ==> s[j] == t[j];
  }

  lemma WholeTexts(stmts: seq<Statement>, i: nat)
    requires i <= |stmts|
    ensures i == |stmts| ==> Texts(stmts[..i]) == Texts(stmts)
  {
    assert stmts[..|stmts|] == stmts;
  }

  lemma SplitPiece(sql: Bytes, stmts: seq<Statement>, i: nat)
    requires IsSplit(sql, stmts) && i < |stmts|
    ensures |Texts(stmts[..i])| <= |sql| && FirstPiece(sql[|Texts(stmts[..i])|..], stmts[i].text)
  {
    var before, text := Texts(stmts[..i]), stmts[i].text;
    TextsPrefix(stmts, i);
    assert sql[|before|..][..|text|] == text by {
      assert sql[..|before| + |text|][|before|..] == text;
    }
    if i == |stmts| - 1 {
      assert stmts[..i] == stmts[..|stmts| - 1];
    } else if LastOpen(stmts) {
      assert stmts[..|stmts| - 1][i] == stmts[i];
    }
  }

  lemma NoPieceMissing(sql: Bytes, a: seq<Statement>, b: seq<Statement>, i: nat)
    requires IsSplit(sql, a) && IsSplit(sql, b) && i < |a| && i <= |b| && Texts(a[..i]) == Texts(b[..i])
    ensures i < |b|
  {
    SplitPiece(sql, a, i);
    WholeTexts(b, i);
  }

  lemma SamePiece(sql: Bytes, a: seq<Statement>, b: seq<Statement>, i: nat)
    requires IsSplit(sql, a) && IsSplit(sql, b) && i < |a| && i < |b| && Texts(a[..i]) == Texts(b[..i])
    ensures a[i].text == b[i].text
  {
    SplitPiece(sql, a, i);
    SplitPiece(sql, b, i);
    FirstPieceIsUnique(sql[|Texts(a[..i])|..], a[i].text, b[i].text);
  }

  lemma SameLine(a: seq<Statement>, b: seq<Statement>, i: nat)
    requires LinesRight(a) && LinesRight(b) && i < |a| && i < |b|
    requires Texts(a[..i]) == Texts(b[..i]) && a[i].text == b[i].text
    ensures a[i].line == b[i].line
  {
    assert LineRight(a, i) && LineRight(b, i);
  }

  lemma {:induction false} SameFirstPieces(sql: Bytes, a: seq<Statement>, b: seq<Statement>, k: nat)
    requires IsSplit(sql, a) && IsSplit(sql, b) && k <= |a|
    ensures k <= |b| && a[..k] == b[..k]
  {
    if k == 0 {
    } else {
      SameFirstPieces(sql, a, b, k - 1);
      NoPieceMissing(sql, a, b, k - 1);
      SamePiece(sql, a, b, k - 1);
      SameLine(a, b, k - 1);
      assert a[..k] == a[..k - 1] + [a[k - 1]] && b[..k] == b[..k - 1] + [b[k - 1]];
    }
  }

  /** A text has one split: the splitter's contract leaves it no choice. */
  lemma SplitIsUnique(sql: Bytes, a: seq<Statement>, b: seq<Statement>)
    requires IsSplit(sql, a) && IsSplit(sql, b)
    ensures a == b
  {
    SameFirstPieces(sql, a, b, |a|);
    SameFirstPieces(sql, b, a, |b|);
    assert a[..|a|] == a && b[..|b|] == b;
  }

  /** The offset of a statement's first byte that is not white space. */
  function Offset(stmts: seq<Statement>, i: nat): nat
    requires i < |stmts|
  {
    |Texts(stmts[..i])| + Lead(stmts[i].text)
  }

  lemma LayoutOfPrefix(s: Bytes, r: Bytes, at: nat)
    requires SameLayout(s, r) && at <= |s|
    ensures Newlines(r[..at]) == Newlines(s[..at])
  {
    SameLayoutSameLines(s[..at], r[..at]);
  }

  lemma PrefixOfPrefix(whole: Bytes, before: Bytes, text: Bytes, n: nat)
    requires |before| + |text| <= |whole| && whole[..|before| + |text|] == before + text && n <= |text|
    ensures before + text[..n] == whole[..|before| + n]
  {
    var at := |before| + n;
    assert whole[..|before| + |text|][..at] == whole[..at];
    assert (before + text)[..at] == before + text[..n];
  }

  lemma LineInFile(file: Bytes, r: Bytes, before: Bytes, text: Bytes, n: nat)
    requires SameLayout(file, r) && |before| + |text| <= |r| && r[..|before| + |text|] == before + text && n <= |text|
    ensures Newlines(before + text[..n]) == Newlines(file[..|before| + n])
  {
    PrefixOfPrefix(r, before, text, n);
    LayoutOfPrefix(file, r, |before| + n);
  }

  lemma LinesOfLayout(file: Bytes, r: Bytes, stmts: seq<Statement>, i: nat)
    requires SameLayout(file, r) && IsSplit(r, stmts) && i < |stmts|
    ensures Offset(stmts, i) <= |file|
    ensures stmts[i].line == 1 + Newlines(file[..Offset(stmts, i)])
  {
    assert LineRight(stmts, i);
    TextsPrefix(stmts, i);
    LineInFile(file, r, Texts(stmts[..i]), stmts[i].text, Lead(stmts[i].text));
  }

  /** After sanitising, a statement's line is its line in the original file: one plus the newlines
      of the file before the statement's first byte that is not white space. */
  lemma LinesOfOriginal(file: Bytes, stmts: seq<Statement>, i: nat)
    requires IsSplit(Sanitized(file), stmts) && i < |stmts|
    ensures Offset(stmts, i) <= |file|
    ensures stmts[i].line == 1 + Newlines(file[..Offset(stmts, i)])
  {
    SanitizedKeepsLayout(file);
    LinesOfLayout(file, Sanitized(file), stmts, i);
  }

  /** The statements that are not blank and that the safety patterns flag. */
  function Flagged(stmts: seq<Statement>, isUnsafe: Bytes -> bool): seq<Diagnostic> {
    if stmts == [] then []
    else
      var n := |stmts| - 1;
      var before := Flagged(stmts[..n], isUnsafe);
      if !AllSpace(stmts[n].text) && isUnsafe(stmts[n].text)
      then before + [Diagnostic(stmts[n].line, stmts[n].text)] else before
  }

  /** Looks for unsafe statements; `isUnsafe` stands for the safety patterns. */
  method Diagnose(file: Bytes, isUnsafe: Bytes -> bool) returns (diagnostics: seq<Diagnostic>)
    ensures exists stmts :: IsSplit(Sanitized(file), stmts) && diagnostics == Flagged(stmts, isUnsafe)
  {
    var sanitized := SanitizeSQL(file);
    var stmts := SplitStatements(sanitized);
    diagnostics := [];
    for i := 0 to |stmts|
      invariant diagnostics == Flagged(stmts[..i], isUnsafe)
    {
      assert stmts[..i + 1][..i] == stmts[..i];
      if !AllSpace(stmts[i].text) && isUnsafe(stmts[i].text) {
        diagnostics := diagnostics + [Diagnostic(stmts[i].line, stmts[i].text)];
      }
    }
    assert stmts[..|stmts|] == stmts;
  }
}
