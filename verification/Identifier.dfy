/** Searching a text for an identifier that stands alone, skipping past rejected occurrences. */
module Identifier {
  import opened Text

  predicate IsIdentifierByte(c: char) {
    c == '_' || '0' <= c <= '9' || 'A' <= c <= 'Z' || 'a' <= c <= 'z'
  }

  /** The identifier characters: the underscore, the digits and the letters. */
  lemma IdentifierBytesAre(c: char)
    ensures IsIdentifierByte(c) <==> c == '_' || c in DIGITS || c in UPPER || c in LOWER
  {
    DigitsAre(c);
    CapitalsAre(c);
    SmallLettersAre(c);
  }

  /** `id` occurs at `k`. */
  predicate OccursAt(text: string, id: string, k: int) {
    0 <= k && k + |id| <= |text| && text[k..k + |id|] == id
  }

  /** No identifier character stands right before or right after the occurrence. */
  predicate Alone(text: string, id: string, k: int)
    requires OccursAt(text, id, k)
  {
    && (k == 0 || !IsIdentifierByte(text[k - 1]))
    && (k + |id| == |text| || !IsIdentifierByte(text[k + |id|]))
  }

  ghost predicate Mentions(text: string, id: string) {
    exists k :: OccursAt(text, id, k) && Alone(text, id, k)
  }

  predicate NoIdentifierAtEnd(s: string) {
    s == "" || !IsIdentifierByte(s[|s| - 1])
  }

  predicate NoIdentifierAtStart(s: string) {
    s == "" || !IsIdentifierByte(s[0])
  }

  /** The text is `before`, the identifier and `after`, with no identifier character next to it. */
  predicate Around(text: string, before: string, id: string, after: string) {
    text == before + id + after && NoIdentifierAtEnd(before) && NoIdentifierAtStart(after)
  }

  lemma AloneIsAround(text: string, id: string, k: int)
    requires OccursAt(text, id, k) && Alone(text, id, k)
    ensures Around(text, text[..k], id, text[k + |id|..])
  {
  }

  lemma AroundIsAlone(text: string, before: string, id: string, after: string)
    requires Around(text, before, id, after)
    ensures OccursAt(text, id, |before|) && Alone(text, id, |before|)
  {
    var k := |before|;
    assert text[k..k + |id|] == id;
    assert k > 0 ==> text[k - 1] == before[k - 1];
    assert k + |id| < |text| ==> text[k + |id|] == after[0];
  }

  /** A text mentions an identifier when it can be read as something, the identifier and something,
      with no identifier character next to it on either side. */
  lemma MentionsMeans(text: string, id: string)
    ensures Mentions(text, id) <==> exists before, after :: Around(text, before, id, after)
  {
    if Mentions(text, id) {
      var k :| OccursAt(text, id, k) && Alone(text, id, k);
      AloneIsAround(text, id, k);
    }
    forall before, after | Around(text, before, id, after)
      ensures Mentions(text, id)
    {
      AroundIsAlone(text, before, id, after);
    }
  }

  /** `strings.Index` from an offset: the first occurrence, or -1. */
  method IndexFrom(text: string, id: string, offset: nat) returns (k: int)
    requires offset <= |text|
    ensures if k >= 0 then FirstFrom(text, id, offset, k) else NoneFrom(text, id, offset)
  {
    var i: int := offset;
    while i + |id| <= |text|
      invariant offset <= i
      invariant forall j :: offset <= j < i ==> !OccursAt(text, id, j)
      decreases |text| - i
    {
      if text[i..i + |id|] == id {
        return i;
      }
      i := i + 1;
    }
    return -1;
  }

  /** `k` is the first occurrence from `offset` on. */
  ghost predicate FirstFrom(text: string, id: string, offset: nat, k: int) {
    offset <= k && OccursAt(text, id, k) && forall j :: offset <= j < k ==> !OccursAt(text, id, j)
  }

  ghost predicate NoneFrom(text: string, id: string, offset: nat) {
    forall j :: offset <= j ==> !OccursAt(text, id, j)
  }

  /** The answer of a scan from `offset`, which goes on behind a rejected occurrence. */
  ghost predicate ScanFinds(text: string, id: string, offset: nat, found: bool)
    requires id != ""
    decreases |text| - offset
  {
    if NoneFrom(text, id, offset) then !found
    else exists k ::
      FirstFrom(text, id, offset, k) && (if Alone(text, id, k) then found else ScanFinds(text, id, k + |id|, found))
  }

  method Scan(text: string, id: string) returns (found: bool)
    requires id != ""
    ensures ScanFinds(text, id, 0, found)
  {
    var offset := 0;
    while true
      invariant offset <= |text|
      invariant forall f :: ScanFinds(text, id, offset, f) ==> ScanFinds(text, id, 0, f)
      decreases |text| - offset
    {
      var start := IndexFrom(text, id, offset);
      if start < 0 {
        return false;
      }
      if Alone(text, id, start) {
        return true;
      }
      offset := start + |id|;
    }
  }

  method MentionsExactIdentifier(rawText: string, rawIdentifier: string) returns (found: bool)
    ensures var text, id := TrimSpace(rawText), TrimSpace(rawIdentifier);
            if text == "" || id == "" then !found
            else (found ==> Mentions(text, id)) && (SkipsSafely(id) ==> (found <==> Mentions(text, id)))
  {
    var text, id := TrimSpace(rawText), TrimSpace(rawIdentifier);
    if text == "" || id == "" {
      return false;
    }
    found := Scan(text, id);
    ScanDecides(text, id, found);
  }

  // ----- what the scan decides

  lemma {:induction false} ScanIsSound(text: string, id: string, offset: nat, found: bool)
    requires id != "" && ScanFinds(text, id, offset, found)
    ensures found ==> exists k :: offset <= k && OccursAt(text, id, k) && Alone(text, id, k)
    decreases |text| - offset
  {
    if !NoneFrom(text, id, offset) {
      var k :| FirstFrom(text, id, offset, k) &&
               (if Alone(text, id, k) then found else ScanFinds(text, id, k + |id|, found));
      if !Alone(text, id, k) {
        ScanIsSound(text, id, k + |id|, found);
      }
    }
  }

  /** The identifier overlaps itself at shift `s`, with a character before the second copy that is
      no identifier character: then a rejected occurrence can hide a good one. */
  predicate BadOverlap(id: string, s: int) {
    1 <= s < |id| && id[s..] == id[..|id| - s] && !IsIdentifierByte(id[s - 1])
  }

  predicate SkipsSafely(id: string) {
    forall s :: 1 <= s < |id| ==> !BadOverlap(id, s)
  }

  /** An identifier made of identifier characters only has no bad overlap. */
  lemma IdentifiersSkipSafely(id: string)
    requires forall k :: 0 <= k < |id| ==> IsIdentifierByte(id[k])
    ensures SkipsSafely(id)
  {
  }

  lemma OverlapIsShift(text: string, id: string, k: int, m: int)
    requires OccursAt(text, id, k) && OccursAt(text, id, m) && k < m < k + |id|
    ensures id[m - k..] == id[..|id| - (m - k)] && text[m - 1] == id[m - k - 1]
  {
    var s := m - k;
    assert forall i :: 0 <= i < |id| ==> text[k + i] == text[k..k + |id|][i] == id[i];
    assert forall i :: 0 <= i < |id| ==> text[m + i] == text[m..m + |id|][i] == id[i];
    forall i | 0 <= i < |id| - s
      ensures id[s..][i] == id[..|id| - s][i]
    {
      assert text[k + (s + i)] == id[s + i] && text[m + i] == id[i];
    }
  }

  /** A good occurrence at or after a rejected one does not overlap it. */
  lemma RejectedHidesNothing(text: string, id: string, k: int, m: int)
    requires SkipsSafely(id) && OccursAt(text, id, k) && !Alone(text, id, k)
    requires OccursAt(text, id, m) && Alone(text, id, m) && k <= m
    ensures k + |id| <= m
  {
    if k < m < k + |id| {
      OverlapIsShift(text, id, k, m);
      assert BadOverlap(id, m - k);
    }
  }

  lemma {:induction false} ScanIsComplete(text: string, id: string, offset: nat, found: bool)
    requires id != "" && SkipsSafely(id) && ScanFinds(text, id, offset, found)
    ensures (exists m :: offset <= m && OccursAt(text, id, m) && Alone(text, id, m)) ==> found
    decreases |text| - offset
  {
    if m :| offset <= m && OccursAt(text, id, m) && Alone(text, id, m) {
      var k :| FirstFrom(text, id, offset, k) &&
               (if Alone(text, id, k) then found else ScanFinds(text, id, k + |id|, found));
      if !Alone(text, id, k) {
        RejectedHidesNothing(text, id, k, m);
        ScanIsComplete(text, id, k + |id|, found);
      }
    }
  }

  lemma ScanDecides(text: string, id: string, found: bool)
    requires id != "" && ScanFinds(text, id, 0, found)
    ensures found ==> Mentions(text, id)
    ensures SkipsSafely(id) ==> (found <==> Mentions(text, id))
  {
    ScanIsSound(text, id, 0, found);
    if SkipsSafely(id) {
      ScanIsComplete(text, id, 0, found);
    }
  }

  // ----- exactly which identifiers are searched for correctly

  /** The scan's answer is the right one on every trimmed text. */
  ghost predicate AlwaysRight(id: string)
    requires id != ""
  {
    forall text, found :: text != "" && Trimmed(text) && ScanFinds(text, id, 0, found) ==> (found <==> Mentions(text, id))
  }

  /** A text in which the good occurrence hides behind a rejected one. */
  function HidingText(id: string, s: int): string
    requires 1 <= s < |id|
  {
    [if id[0] == 'x' then 'y' else 'x'] + id[..s] + id
  }

  lemma OccurrenceStart(text: string, id: string, at: nat)
    requires id != "" && at < |text|
    ensures OccursAt(text, id, at) ==> text[at] == id[0]
  {
    if OccursAt(text, id, at) {
      assert text[at..at + |id|][0] == text[at];
    }
  }

  lemma HidingTextOccurrences(id: string, s: int)
    requires BadOverlap(id, s)
    ensures var text := HidingText(id, s);
            && OccursAt(text, id, 1) && !Alone(text, id, 1)
            && OccursAt(text, id, s + 1) && Alone(text, id, s + 1)
            && !OccursAt(text, id, 0)
  {
    var text := HidingText(id, s);
    assert |text| == 1 + s + |id|;
    assert text[s + 1..s + 1 + |id|] == id;
    assert id == id[..s] + id[s..] && id[..|id| - s] == id[s..];
    assert text[1..1 + |id|] == id[..s] + id[..|id| - s];
    assert text[s] == id[s - 1];
    assert text[0] != id[0];
    OccurrenceStart(text, id, 0);
  }

  lemma HidingTextIsMissed(id: string, s: int)
    requires BadOverlap(id, s)
    ensures ScanFinds(HidingText(id, s), id, 0, false) && Mentions(HidingText(id, s), id)
  {
    var text := HidingText(id, s);
    HidingTextOccurrences(id, s);
    assert NoneFrom(text, id, 1 + |id|);
    assert FirstFrom(text, id, 0, 1);
  }

  /** An input: the second `a-a` in `xa-a-a` stands alone, and is missed. */
  lemma MissedMention()
    ensures BadOverlap("a-a", 2) && HidingText("a-a", 2) == "xa-a-a"
    ensures ScanFinds("xa-a-a", "a-a", 0, false) && Mentions("xa-a-a", "a-a")
  {
    HidingTextIsMissed("a-a", 2);
  }

  /** The search is right for exactly those identifiers that skip safely; it never reports a
      mention that is not there. */
  lemma SearchIsRightExactly(id: string)
    requires id != "" && Trimmed(id)
    ensures AlwaysRight(id) <==> SkipsSafely(id)
  {
    if SkipsSafely(id) {
      forall text, found | text != "" && Trimmed(text) && ScanFinds(text, id, 0, found)
        ensures found <==> Mentions(text, id)
      {
        ScanIsSound(text, id, 0, found);
        ScanIsComplete(text, id, 0, found);
      }
    }
    if AlwaysRight(id) {
      forall s | 1 <= s < |id|
        ensures !BadOverlap(id, s)
      {
        if BadOverlap(id, s) {
          HidingTextIsMissed(id, s);
          var text := HidingText(id, s);
          assert Trimmed(text) by {
            assert text[|text| - 1] == id[|id| - 1];
          }
        }
      }
    }
  }
}
