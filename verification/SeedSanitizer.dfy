/** Blanking the comments and literals of a seed file before its statements are inspected. */
module SeedSanitizer {

  newtype Byte = x: int | 0 <= x < 256

  type Bytes = seq<Byte>

  const NEWLINE: Byte := 10
  const SPACE: Byte := 32
  const DOUBLE_QUOTE: Byte := 34
  const DOLLAR: Byte := 36
  const QUOTE: Byte := 39
  const STAR: Byte := 42
  const DASH: Byte := 45
  const SLASH: Byte := 47

  predicate IsTagByte(b: Byte) {
    b == 95 || 97 <= b <= 122 || 65 <= b <= 90 || 48 <= b <= 57
  }

  function Blank(b: Byte): Byte {
    if b == NEWLINE then NEWLINE else SPACE
  }

  function Blanks(s: Bytes): (r: Bytes)
    ensures |r| == |s| && forall k :: 0 <= k < |s| ==> r[k] == Blank(s[k])
  {
    seq(|s|, k requires 0 <= k < |s| => Blank(s[k]))
  }

  // ----- what begins at a position

  predicate StartsWith(s: Bytes, a: Byte, b: Byte) {
    |s| >= 2 && s[0] == a && s[1] == b
  }

  /** The bytes of a line comment up to its newline. */
  function LineEnd(s: Bytes): (n: nat)
    ensures n <= |s|
  {
    if s == [] || s[0] == NEWLINE then 0 else 1 + LineEnd(s[1..])
  }

  /** The bytes of a block comment after its opening, through the first closing. */
  function BlockEnd(s: Bytes): (n: nat)
    ensures n <= |s|
  {
    if s == [] then 0 else if StartsWith(s, STAR, SLASH) then 2 else 1 + BlockEnd(s[1..])
  }

  /** The bytes of a quoted literal after its opening quote; a doubled quote stays inside. */
  function QuoteEnd(s: Bytes, q: Byte): (n: nat)
    ensures n <= |s|
  {
    if s == [] then 0
    else if s[0] != q then 1 + QuoteEnd(s[1..], q)
    else if StartsWith(s, q, q) then 2 + QuoteEnd(s[2..], q)
    else 1
  }

  /** The bytes of a dollar tag after its first dollar, through the second, or 0 if there is none. */
  function TagRest(s: Bytes): (n: nat)
    ensures n <= |s|
  {
    if s == [] then 0
    else if s[0] == DOLLAR then 1
    else if IsTagByte(s[0]) && TagRest(s[1..]) > 0 then 1 + TagRest(s[1..])
    else 0
  }

  predicate StartsTag(s: Bytes) {
    s != [] && s[0] == DOLLAR && TagRest(s[1..]) > 0
  }

  function TagLength(s: Bytes): (n: nat)
    requires StartsTag(s)
    ensures 2 <= n <= |s|
  {
    1 + TagRest(s[1..])
  }

  /** The bytes before the first occurrence of `t`, or all of them. */
  function IndexOf(s: Bytes, t: Bytes): (n: nat)
    ensures n <= |s|
  {
    if t <= s || s == [] then 0 else 1 + IndexOf(s[1..], t)
  }

  /** The bytes of a dollar-quoted literal after its tag, through the closing tag. */
  function DollarEnd(s: Bytes, tag: Bytes): (n: nat)
    ensures n <= |s|
  {
    var at := IndexOf(s, tag);
    if at + |tag| <= |s| then at + |tag| else |s|
  }

  /** Nothing to blank begins here. */
  predicate Plain(s: Bytes) {
    && !StartsWith(s, DASH, DASH) && !StartsWith(s, SLASH, STAR)
    && (s != [] ==> s[0] != QUOTE && s[0] != DOUBLE_QUOTE)
    && !StartsTag(s)
  }

  /** The length of the comment or literal that begins here. */
  function TokenLength(s: Bytes): (n: nat)
    requires !Plain(s)
    ensures 1 <= n <= |s|
  {
    if StartsWith(s, DASH, DASH) then 2 + LineEnd(s[2..])
    else if StartsWith(s, SLASH, STAR) then 2 + BlockEnd(s[2..])
    else if s[0] == QUOTE || s[0] == DOUBLE_QUOTE then 1 + QuoteEnd(s[1..], s[0])
    else TagLength(s) + DollarEnd(s[TagLength(s)..], s[..TagLength(s)])
  }

  /** The sanitised text: tokens blanked, everything else copied. */
  function Sanitized(s: Bytes): (r: Bytes)
    ensures |r| == |s|
    decreases |s|
  {
    if s == [] then []
    else if Plain(s) then [s[0]] + Sanitized(s[1..])
    else Blanks(s[..TokenLength(s)]) + Sanitized(s[TokenLength(s)..])
  }

  // ----- the scanner as the source runs it

  /** `r` is `out` with the bytes of the text from its length up to `i` blanked. */
  ghost predicate Blanked(sql: Bytes, out: Bytes, i: nat, r: Bytes) {
    && |out| <= i <= |sql| && |r| == i
    && (forall k :: 0 <= k < |out| ==> r[k] == out[k])
    && forall k :: |out| <= k < i ==> r[k] == Blank(sql[k])
  }

  method BlankLineComment(sql: Bytes, out: Bytes) returns (i: nat, r: Bytes)
    requires |out| <= |sql|
    ensures i == |out| + LineEnd(sql[|out|..]) && Blanked(sql, out, i, r)
  {
    i, r := |out|, out;
    while i < |sql| && sql[i] != NEWLINE
      invariant Blanked(sql, out, i, r)
      invariant LineEnd(sql[|out|..]) == i - |out| + LineEnd(sql[i..])
    {
      assert sql[i..][1..] == sql[i + 1..];
      r := r + [SPACE];
      i := i + 1;
    }
  }

  method BlankBlockComment(sql: Bytes, out: Bytes) returns (i: nat, r: Bytes)
    requires |out| <= |sql|
    ensures i == |out| + BlockEnd(sql[|out|..]) && Blanked(sql, out, i, r)
  {
    i, r := |out|, out;
    while i < |sql|
      invariant Blanked(sql, out, i, r)
      invariant BlockEnd(sql[|out|..]) == i - |out| + BlockEnd(sql[i..])
    {
      assert sql[i..][1..] == sql[i + 1..];
      if i + 1 < |sql| && sql[i] == STAR && sql[i + 1] == SLASH {
        assert StartsWith(sql[i..], STAR, SLASH);
        r := r + [SPACE, SPACE];
        i := i + 2;
        return;
      }
      r := r + [Blank(sql[i])];
      i := i + 1;
    }
  }

  lemma QuoteStep(sql: Bytes, i: nat, q: Byte)
    requires i < |sql|
    ensures QuoteEnd(sql[i..], q) ==
            if sql[i] != q then 1 + QuoteEnd(sql[i + 1..], q)
            else if i + 1 < |sql| && sql[i + 1] == q then 2 + QuoteEnd(sql[i + 2..], q)
            else 1
  {
    assert sql[i..][1..] == sql[i + 1..];
    if i + 1 < |sql| {
      assert sql[i..][2..] == sql[i + 2..];
    }
  }

  method BlankQuoted(sql: Bytes, q: Byte, out: Bytes) returns (i: nat, r: Bytes)
    requires |out| <= |sql| && q != NEWLINE
    ensures i == |out| + QuoteEnd(sql[|out|..], q) && Blanked(sql, out, i, r)
  {
    i, r := |out|, out;
    while i < |sql|
      invariant Blanked(sql, out, i, r)
      invariant QuoteEnd(sql[|out|..], q) == i - |out| + QuoteEnd(sql[i..], q)
    {
      QuoteStep(sql, i, q);
      if sql[i] != q {
        r := r + [Blank(sql[i])];
        i := i + 1;
      } else if i + 1 < |sql| && sql[i + 1] == q {
        r := r + [SPACE, SPACE];
        i := i + 2;
      } else {
        r := r + [SPACE];
        i := i + 1;
        return;
      }
    }
  }

  /** The end of the tag that begins at `start`, or -1. */
  method TagEnd(sql: Bytes, start: nat) returns (e: int)
    requires start < |sql|
    ensures if StartsTag(sql[start..]) then e == start + TagLength(sql[start..]) - 1 else e == -1
  {
    if sql[start] != DOLLAR {
      return -1;
    }
    assert sql[start..][1..] == sql[start + 1..];
    var i := start + 1;
    while i < |sql|
      invariant start < i <= |sql|
      invariant if TagRest(sql[i..]) > 0 then TagRest(sql[start + 1..]) == i - start - 1 + TagRest(sql[i..])
                else TagRest(sql[start + 1..]) == 0
    {
      assert sql[i..][1..] == sql[i + 1..];
      if sql[i] == DOLLAR {
        return i;
      } else if !IsTagByte(sql[i]) {
        return -1;
      }
      i := i + 1;
    }
    return -1;
  }

  /** `strings.Index` of the tag, as a position in the text, or its length. */
  method FindTag(sql: Bytes, from: nat, tag: Bytes) returns (at: nat)
    requires from <= |sql|
    ensures at == from + IndexOf(sql[from..], tag) && at <= |sql|
  {
    at := from;
    while at < |sql| && !(tag <= sql[at..])
      invariant from <= at <= |sql|
      invariant IndexOf(sql[from..], tag) == at - from + IndexOf(sql[at..], tag)
    {
      assert sql[at..][1..] == sql[at + 1..];
      at := at + 1;
    }
  }

  method BlankBytes(sql: Bytes, to: nat, out: Bytes) returns (r: Bytes)
    requires |out| <= to <= |sql|
    ensures Blanked(sql, out, to, r)
  {
    r := out;
    for i := |out| to to
      invariant Blanked(sql, out, i, r)
    {
      r := r + [Blank(sql[i])];
    }
  }

  lemma {:induction false} TagRestHasNoNewline(s: Bytes)
    ensures forall k :: 0 <= k < TagRest(s) ==> s[k] != NEWLINE
  {
    if s != [] && s[0] != DOLLAR && IsTagByte(s[0]) {
      TagRestHasNoNewline(s[1..]);
      assert forall k :: 0 < k < TagRest(s) ==> s[k] == s[1..][k - 1];
    }
  }

  lemma TagHasNoNewline(sql: Bytes, from: nat)
    requires from < |sql| && StartsTag(sql[from..])
    ensures forall k :: from <= k < from + TagLength(sql[from..]) ==> sql[k] != NEWLINE
  {
    var s := sql[from..];
    TagRestHasNoNewline(s[1..]);
    assert forall k :: from < k < from + TagLength(s) ==> sql[k] == s[1..][k - from - 1];
  }

  lemma {:induction false} IndexOfFinds(s: Bytes, t: Bytes)
    requires t != [] && IndexOf(s, t) + |t| <= |s|
    ensures forall k :: 0 <= k < |t| ==> s[IndexOf(s, t) + k] == t[k]
  {
    if !(t <= s) && s != [] {
      IndexOfFinds(s[1..], t);
    }
  }

  /** Writes spaces over bytes that hold no newline. */
  method BlankRun(sql: Bytes, to: nat, out: Bytes) returns (r: Bytes)
    requires |out| <= to <= |sql| && forall k :: |out| <= k < to ==> sql[k] != NEWLINE
    ensures Blanked(sql, out, to, r)
  {
    r := out + seq(to - |out|, _ => SPACE);
  }

  lemma ClosingTagHasNoNewline(rest: Bytes, tag: Bytes, k: nat)
    requires tag != [] && IndexOf(rest, tag) + |tag| <= |rest|
    requires forall m :: 0 <= m < |tag| ==> tag[m] != NEWLINE
    requires IndexOf(rest, tag) <= k < IndexOf(rest, tag) + |tag|
    ensures rest[k] != NEWLINE
  {
    IndexOfFinds(rest, tag);
    assert rest[IndexOf(rest, tag) + (k - IndexOf(rest, tag))] == tag[k - IndexOf(rest, tag)];
  }

  lemma DollarTokenEnd(sql: Bytes, at: nat, tag: Bytes, bodyEnd: nat)
    requires at < |sql| && StartsTag(sql[at..]) && tag == sql[at..][..TagLength(sql[at..])]
    requires bodyEnd == at + |tag| + IndexOf(sql[at + |tag|..], tag)
    ensures at + TokenLength(sql[at..]) == if bodyEnd + |tag| <= |sql| then bodyEnd + |tag| else |sql|
  {
    assert sql[at..][|tag|..] == sql[at + |tag|..];
  }

  lemma DollarTokenClose(sql: Bytes, at: nat, tag: Bytes, bodyEnd: nat)
    requires at < |sql| && StartsTag(sql[at..]) && tag == sql[at..][..TagLength(sql[at..])]
    requires bodyEnd == at + |tag| + IndexOf(sql[at + |tag|..], tag) && bodyEnd + |tag| <= |sql|
    ensures forall k :: bodyEnd <= k < bodyEnd + |tag| ==> sql[k] != NEWLINE
  {
    TagHasNoNewline(sql, at);
    var rest := sql[at + |tag|..];
    assert forall m :: 0 <= m < |tag| ==> tag[m] == sql[at + m];
    forall k | bodyEnd <= k < bodyEnd + |tag|
      ensures sql[k] != NEWLINE
    {
      ClosingTagHasNoNewline(rest, tag, k - at - |tag|);
    }
  }

  lemma BlankedChain(sql: Bytes, a: Bytes, i: nat, b: Bytes, j: nat, c: Bytes)
    requires Blanked(sql, a, i, b) && Blanked(sql, b, j, c)
    ensures Blanked(sql, a, j, c)
  {
  }

  /** Blanks a dollar-quoted literal: its tag, its body and its closing tag. */
  method BlankDollar(sql: Bytes, tagEnd: nat, out: Bytes) returns (i: nat, r: Bytes)
    requires |out| < |sql| && StartsTag(sql[|out|..]) && tagEnd == |out| + TagLength(sql[|out|..]) - 1
    ensures i == |out| + TokenLength(sql[|out|..]) && Blanked(sql, out, i, r)
  {
    var at := |out|;
    var tag := sql[at..tagEnd + 1];
    TagHasNoNewline(sql, at);
    var tagged := BlankRun(sql, tagEnd + 1, out);
    var bodyEnd := FindTag(sql, tagEnd + 1, tag);
    assert tag == sql[at..][..TagLength(sql[at..])];
    DollarTokenEnd(sql, at, tag, bodyEnd);
    if bodyEnd + |tag| > |sql| {
      r := BlankBytes(sql, |sql|, tagged);
      i := |sql|;
      BlankedChain(sql, out, tagEnd + 1, tagged, i, r);
    } else {
      DollarTokenClose(sql, at, tag, bodyEnd);
      var body := BlankBytes(sql, bodyEnd, tagged);
      i := bodyEnd + |tag|;
      r := BlankRun(sql, i, body);
      BlankedChain(sql, out, tagEnd + 1, tagged, bodyEnd, body);
      BlankedChain(sql, out, bodyEnd, body, i, r);
    }
  }

  /** `out` is the sanitised text so far, and the rest stands on its own. */
  ghost predicate Partial(sql: Bytes, out: Bytes) {
    && |out| <= |sql|
    && out == Sanitized(sql)[..|out|]
    && Sanitized(sql)[|out|..] == Sanitized(sql[|out|..])
  }

  lemma TokenStep(sql: Bytes, out: Bytes, j: nat, r: Bytes)
    requires Partial(sql, out) && |out| < |sql| && !Plain(sql[|out|..])
    requires j == |out| + TokenLength(sql[|out|..]) && Blanked(sql, out, j, r)
    ensures Partial(sql, r)
  {
    var target, i := Sanitized(sql), |out|;
    var s := sql[i..];
    var n := TokenLength(s);
    var rest := Sanitized(s[n..]);
    assert s[n..] == sql[j..];
    assert target[i..] == Blanks(s[..n]) + rest;
    assert target[j..] == target[i..][n..] == rest;
    forall k | 0 <= k < j
      ensures r[k] == target[k]
    {
      if k < i {
        assert out[k] == target[k];
      } else {
        assert target[k] == target[i..][k - i] == Blanks(s[..n])[k - i];
      }
    }
  }

  lemma PlainStep(sql: Bytes, out: Bytes)
    requires Partial(sql, out) && |out| < |sql| && Plain(sql[|out|..])
    ensures Partial(sql, out + [sql[|out|]])
  {
    var target, i := Sanitized(sql), |out|;
    var s := sql[i..];
    assert s[1..] == sql[i + 1..];
    assert target[i..] == [s[0]] + Sanitized(s[1..]);
    assert target[i..][1..] == target[i + 1..];
    assert target[i] == target[i..][0] == sql[i];
  }

  lemma Opening(sql: Bytes, out: Bytes, more: Bytes, j: nat, r: Bytes)
    requires |out| + |more| <= j && Blanked(sql, out + more, j, r)
    requires forall k :: 0 <= k < |more| ==> more[k] == Blank(sql[|out| + k])
    ensures Blanked(sql, out, j, r)
  {
    var longer := out + more;
    forall k | |out| <= k < j
      ensures r[k] == Blank(sql[k])
    {
      if k < |longer| {
        assert r[k] == longer[k] == more[k - |out|];
      }
    }
    assert forall k :: 0 <= k < |out| ==> longer[k] == out[k];
  }

  /** Blanks the comment that two bytes open at `|out|`. */
  method BlankComment(sql: Bytes, out: Bytes, block: bool) returns (i: nat, r: Bytes)
    requires |out| + 2 <= |sql| && (if block then sql[|out|] == SLASH && sql[|out| + 1] == STAR else sql[|out|] == DASH && sql[|out| + 1] == DASH)
    ensures Blanked(sql, out, i, r)
    ensures i == |out| + 2 + if block then BlockEnd(sql[|out|..][2..]) else LineEnd(sql[|out|..][2..])
  {
    var at := |out|;
    assert sql[at..][2..] == sql[at + 2..];
    if block {
      i, r := BlankBlockComment(sql, out + [SPACE, SPACE]);
    } else {
      i, r := BlankLineComment(sql, out + [SPACE, SPACE]);
    }
    Opening(sql, out, [SPACE, SPACE], i, r);
  }

  method BlankLiteral(sql: Bytes, out: Bytes) returns (i: nat, r: Bytes)
    requires |out| < |sql| && (sql[|out|] == QUOTE || sql[|out|] == DOUBLE_QUOTE)
    ensures Blanked(sql, out, i, r) && i == |out| + 1 + QuoteEnd(sql[|out|..][1..], sql[|out|])
  {
    var at := |out|;
    assert sql[at..][1..] == sql[at + 1..];
    i, r := BlankQuoted(sql, sql[at], out + [SPACE]);
    Opening(sql, out, [SPACE], i, r);
  }

  /** Blanks the comment or literal at `|out|`. */
  method BlankToken(sql: Bytes, out: Bytes) returns (i: nat, r: Bytes)
    requires |out| < |sql|
    ensures if Plain(sql[|out|..]) then i == |out| && r == out
            else i == |out| + TokenLength(sql[|out|..]) && Blanked(sql, out, i, r)
  {
    var at := |out|;
    if at + 1 < |sql| && sql[at] == DASH && sql[at + 1] == DASH {
      i, r := BlankComment(sql, out, false);
    } else if at + 1 < |sql| && sql[at] == SLASH && sql[at + 1] == STAR {
      i, r := BlankComment(sql, out, true);
    } else if sql[at] == QUOTE || sql[at] == DOUBLE_QUOTE {
      i, r := BlankLiteral(sql, out);
    } else {
      i, r := at, out;
      if sql[at] == DOLLAR {
        var tagEnd := TagEnd(sql, at);
        if tagEnd != -1 {
          i, r := BlankDollar(sql, tagEnd, out);
        }
      }
    }
  }

  method SanitizeSQL(sql: Bytes) returns (out: Bytes)
    ensures out == Sanitized(sql)
  {
    out := [];
    assert sql[0..] == sql;
    while |out| < |sql|
      invariant Partial(sql, out)
      decreases |sql| - |out|
    {
      var j, blanked := BlankToken(sql, out);
      if j == |out| {
        PlainStep(sql, out);
        out := out + [sql[|out|]];
      } else {
        TokenStep(sql, out, j, blanked);
        out := blanked;
      }
    }
    assert Sanitized(sql)[..|sql|] == Sanitized(sql);
  }
}
