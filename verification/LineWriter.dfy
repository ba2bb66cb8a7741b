/** The setup output writer: lines out of a byte stream that arrives in arbitrary pieces. */
module LineWriter {
  import opened SeedSanitizer

  /** The lines a stream has completed, and the bytes after its last newline. */
  datatype Cut = Cut(lines: seq<Bytes>, rest: Bytes)

  function Feed(c: Cut, b: Byte): Cut {
    if b == NEWLINE then Cut(c.lines + [c.rest], []) else Cut(c.lines, c.rest + [b])
  }

  /** A cut continued byte by byte. */
  function FeedAll(c: Cut, s: Bytes): Cut
    decreases |s|
  {
    if s == [] then c else FeedAll(Feed(c, s[0]), s[1..])
  }

  function CutLines(s: Bytes): Cut {
    FeedAll(Cut([], []), s)
  }

  /** What a whole stream must emit: its lines, without an empty last one. */
  function Lines(s: Bytes): seq<Bytes> {
    var c := CutLines(s);
    if c.rest == [] then c.lines else c.lines + [c.rest]
  }

  // ----- feeding

  lemma {:induction false} FeedConcat(c: Cut, s: Bytes, t: Bytes)
    ensures FeedAll(c, s + t) == FeedAll(FeedAll(c, s), t)
    decreases |s|
  {
    if s == [] {
      assert s + t == t;
    } else {
      FeedConcat(Feed(c, s[0]), s[1..], t);
      assert (s + t)[1..] == s[1..] + t;
    }
  }

  lemma {:induction false} FeedOpenLine(c: Cut, s: Bytes)
    requires NEWLINE !in s
    ensures FeedAll(c, s) == Cut(c.lines, c.rest + s)
    decreases |s|
  {
    if s == [] {
      assert c.rest + s == c.rest;
    } else {
      FeedOpenLine(Feed(c, s[0]), s[1..]);
      assert c.rest + [s[0]] + s[1..] == c.rest + s;
    }
  }

  lemma FeedLine(c: Cut, line: Bytes, tail: Bytes)
    requires NEWLINE !in line
    ensures FeedAll(c, line + [NEWLINE] + tail) == FeedAll(Cut(c.lines + [c.rest + line], []), tail)
  {
    FeedConcat(c, line + [NEWLINE], tail);
    FeedConcat(c, line, [NEWLINE]);
    FeedOpenLine(c, line);
    assert [NEWLINE][1..] == [];
  }

  // ----- the writer as the source runs it

  /** `bytes.IndexByte` of a newline: its index, or -1. */
  method IndexNewline(p: Bytes) returns (index: int)
    ensures index < 0 ==> NEWLINE !in p
    ensures 0 <= index ==> index < |p| && p[index] == NEWLINE && NEWLINE !in p[..index]
  {
    for i := 0 to |p|
      invariant NEWLINE !in p[..i]
    {
      if p[i] == NEWLINE {
        return i;
      }
      assert p[..i + 1] == p[..i] + [p[i]];
    }
    assert p[..|p|] == p;
    return -1;
  }

  class SetupOutputWriter {
    var buf: Bytes
    var emitted: seq<Bytes>
    /** Everything written since the last close, and what had been emitted by then. */
    ghost var stream: Bytes
    ghost var earlier: seq<Bytes>

    /** The lines emitted since then and the bytes kept are the cut of the stream. */
    ghost predicate Valid()
      reads this
    {
      Cut(emitted, buf) == FeedAll(Cut(earlier, []), stream)
    }

    constructor ()
      ensures Valid() && stream == [] && earlier == []
    {
      buf, emitted, stream, earlier := [], [], [], [];
    }

    method Write(p: Bytes) returns (total: nat)
      requires Valid()
      modifies this
      ensures total == |p| && Valid() && stream == old(stream) + p && earlier == old(earlier)
    {
      total := |p|;
      var left := p;
      FeedConcat(Cut(earlier, []), stream, p);
      stream := stream + p;
      while |left| > 0
        invariant stream == old(stream) + p && earlier == old(earlier)
        invariant FeedAll(Cut(emitted, buf), left) == FeedAll(Cut(earlier, []), stream)
        decreases |left|
      {
        var index := IndexNewline(left);
        if index < 0 {
          FeedOpenLine(Cut(emitted, buf), left);
          buf := buf + left;
          return;
        }
        FeedLine(Cut(emitted, buf), left[..index], left[index + 1..]);
        assert left == left[..index] + [NEWLINE] + left[index + 1..];
        var line := buf + left[..index];
        buf := [];
        emitted := emitted + [line];
        left := left[index + 1..];
      }
    }

    /** Completes what was emitted to the lines of all that was written, and starts afresh. A stream
        that ends with a newline has nothing left to emit. */
    method Close()
      requires Valid()
      modifies this
      ensures emitted == old(earlier) + Lines(old(stream))
      ensures (old(stream) == [] || old(stream)[|old(stream)| - 1] == NEWLINE) <==> emitted == old(emitted)
      ensures Valid() && stream == [] && earlier == emitted
    {
      EarlierStays(earlier, Cut([], []), stream);
      OpenLineIsSeen(Cut(earlier, []), stream);
      stream := [];
      if buf == [] {
        earlier := emitted;
        return;
      }
      emitted := emitted + [buf];
      buf := [];
      earlier := emitted;
    }
  }

  lemma {:induction false} EarlierStays(earlier: seq<Bytes>, c: Cut, s: Bytes)
    ensures FeedAll(Cut(earlier + c.lines, c.rest), s) == Cut(earlier + FeedAll(c, s).lines, FeedAll(c, s).rest)
    ensures c.lines == [] ==> FeedAll(Cut(earlier, c.rest), s) == Cut(earlier + FeedAll(c, s).lines, FeedAll(c, s).rest)
    decreases |s|
  {
    assert c.lines == [] ==> earlier + c.lines == earlier;
    if s == [] {
    } else {
      EarlierStays(earlier, Feed(c, s[0]), s[1..]);
      assert earlier + (c.lines + [c.rest]) == (earlier + c.lines) + [c.rest];
    }
  }

  lemma {:induction false} OpenLineIsSeen(c: Cut, s: Bytes)
    ensures FeedAll(c, s).rest == [] <==> if s == [] then c.rest == [] else s[|s| - 1] == NEWLINE
    decreases |s|
  {
    if |s| == 1 {
      assert s[1..] == [];
    } else if |s| > 1 {
      OpenLineIsSeen(Feed(c, s[0]), s[1..]);
    }
  }

  function Joined(pieces: seq<Bytes>): Bytes {
    if pieces == [] then [] else Joined(pieces[..|pieces| - 1]) + pieces[|pieces| - 1]
  }

  /** Writing a stream in any pieces, then closing, emits exactly the lines of the stream. */
  method WriteAll(pieces: seq<Bytes>) returns (emitted: seq<Bytes>)
    ensures emitted == Lines(Joined(pieces))
  {
    var w := new SetupOutputWriter();
    for i := 0 to |pieces|
      invariant fresh(w) && w.Valid() && w.stream == Joined(pieces[..i]) && w.earlier == []
    {
      assert pieces[..i + 1][..i] == pieces[..i];
      var total := w.Write(pieces[i]);
    }
    assert pieces[..|pieces|] == pieces;
    w.Close();
    assert [] + Lines(Joined(pieces)) == Lines(Joined(pieces));
    emitted := w.emitted;
  }

  // ----- the lines are the newline-split of the stream

  /** Lines joined with newlines, then the rest. */
  function Unlines(lines: seq<Bytes>, rest: Bytes): Bytes {
    if lines == [] then rest else lines[0] + [NEWLINE] + Unlines(lines[1..], rest)
  }

  ghost predicate NoNewlines(c: Cut) {
    NEWLINE !in c.rest && forall i :: 0 <= i < |c.lines| ==> NEWLINE !in c.lines[i]
  }

  lemma {:induction false} FeedOfUnlines(c: Cut, lines: seq<Bytes>, rest: Bytes)
    requires NoNewlines(Cut(lines, rest)) && c.rest == []
    ensures FeedAll(c, Unlines(lines, rest)) == Cut(c.lines + lines, rest)
    decreases |lines|
  {
    if lines == [] {
      FeedOpenLine(c, rest);
      assert c.lines + lines == c.lines;
      assert [] + rest == rest;
    } else {
      FeedLine(c, lines[0], Unlines(lines[1..], rest));
      assert [] + lines[0] == lines[0];
      FeedOfUnlines(Cut(c.lines + [lines[0]], []), lines[1..], rest);
      assert c.lines + [lines[0]] + lines[1..] == c.lines + lines;
    }
  }

  lemma {:induction false} UnlinesSnoc(lines: seq<Bytes>, line: Bytes, rest: Bytes)
    ensures Unlines(lines + [line], rest) == Unlines(lines, line) + [NEWLINE] + rest
    decreases |lines|
  {
    if lines == [] {
      assert lines + [line] == [line];
      assert [line][1..] == [];
    } else {
      UnlinesSnoc(lines[1..], line, rest);
      assert (lines + [line])[1..] == lines[1..] + [line];
    }
  }

  lemma {:induction false} UnlinesMore(lines: seq<Bytes>, rest: Bytes, b: Byte)
    ensures Unlines(lines, rest + [b]) == Unlines(lines, rest) + [b]
    decreases |lines|
  {
    if lines == [] {
    } else {
      UnlinesMore(lines[1..], rest, b);
    }
  }

  lemma {:induction false} FeedKeepsStream(c: Cut, s: Bytes)
    requires NoNewlines(c)
    ensures var d := FeedAll(c, s); NoNewlines(d) && Unlines(d.lines, d.rest) == Unlines(c.lines, c.rest) + s
    decreases |s|
  {
    if s == [] {
      assert Unlines(c.lines, c.rest) + s == Unlines(c.lines, c.rest);
    } else {
      if s[0] == NEWLINE {
        UnlinesSnoc(c.lines, c.rest, []);
      } else {
        UnlinesMore(c.lines, c.rest, s[0]);
      }
      FeedKeepsStream(Feed(c, s[0]), s[1..]);
      assert Unlines(c.lines, c.rest) + [s[0]] + s[1..] == Unlines(c.lines, c.rest) + s;
    }
  }

  /** A cut is the cut of a stream exactly when no piece of it has a newline and the pieces joined
      with newlines are the stream. */
  lemma CutIsTheSplit(s: Bytes, c: Cut)
    ensures c == CutLines(s) <==> NoNewlines(c) && Unlines(c.lines, c.rest) == s
  {
    FeedKeepsStream(Cut([], []), s);
    assert [] + s == s;
    if NoNewlines(c) && Unlines(c.lines, c.rest) == s {
      FeedOfUnlines(Cut([], []), c.lines, c.rest);
      assert [] + c.lines == c.lines;
    }
  }
}
