/** Unicode text as the Go standard library's `strings` and `strconv` packages see it.
    A string is a sequence of Unicode scalar values. */
module Text {

  datatype Option<+T> = None | Some(value: T)

  /** The white space of `unicode.IsSpace`. */
  predicate IsSpace(c: char) {
    || '\t' <= c <= '\r'
    || c == ' '
    || c == '\U{85}'
    || c == '\U{A0}'
    || c == '\U{1680}'
    || '\U{2000}' <= c <= '\U{200A}'
    || c == '\U{2028}' || c == '\U{2029}' || c == '\U{202F}' || c == '\U{205F}'
    || c == '\U{3000}'
  }

  function TrimLeft(s: string): string {
    if s != "" && IsSpace(s[0]) then TrimLeft(s[1..]) else s
  }

  function TrimRight(s: string): string {
    if s != "" && IsSpace(s[|s| - 1]) then TrimRight(s[..|s| - 1]) else s
  }

  function TrimSpace(s: string): string {
    TrimRight(TrimLeft(s))
  }

  predicate Trimmed(s: string) {
    s != "" ==> !IsSpace(s[0]) && !IsSpace(s[|s| - 1])
  }

  lemma {:induction false} TrimLeftIsSuffix(s: string)
    ensures TrimLeft(s) != "" ==> !IsSpace(TrimLeft(s)[0])
    ensures |TrimLeft(s)| <= |s| && TrimLeft(s) == s[|s| - |TrimLeft(s)|..]
    ensures forall k :: 0 <= k < |s| - |TrimLeft(s)| ==> IsSpace(s[k])
  {
    if s != "" && IsSpace(s[0]) {
      TrimLeftIsSuffix(s[1..]);
      assert forall k :: 0 < k < |s| ==> s[k] == s[1..][k - 1];
    }
  }

  lemma {:induction false} TrimRightIsPrefix(s: string)
    ensures TrimRight(s) != "" ==> !IsSpace(TrimRight(s)[|TrimRight(s)| - 1])
    ensures TrimRight(s) <= s
    ensures forall k :: |TrimRight(s)| <= k < |s| ==> IsSpace(s[k])
  {
    if s != "" && IsSpace(s[|s| - 1]) {
      TrimRightIsPrefix(s[..|s| - 1]);
    }
  }

  lemma TrimSpaceTrims(s: string)
    ensures Trimmed(TrimSpace(s))
    ensures Trimmed(s) ==> TrimSpace(s) == s
  {
    TrimLeftIsSuffix(s);
    TrimRightIsPrefix(TrimLeft(s));
  }

  /** The white space characters, one by one. */
  lemma WhiteSpaceIs(c: char)
    ensures IsSpace(c) <==>
            c in "\t\n\U{B}\U{C}\r \U{85}\U{A0}\U{1680}\U{2000}\U{2001}\U{2002}\U{2003}\U{2004}" +
                 "\U{2005}\U{2006}\U{2007}\U{2008}\U{2009}\U{200A}\U{2028}\U{2029}\U{202F}\U{205F}\U{3000}"
  {
  }

  predicate AllSpaces(s: string) {
    forall k :: 0 <= k < |s| ==> IsSpace(s[k])
  }

  /** `t` is `s` without the white space around it. */
  ghost predicate IsTrimOf(s: string, t: string) {
    Trimmed(t) && exists i, j :: TrimmedAt(s, t, i, j)
  }

  predicate TrimmedAt(s: string, t: string, i: int, j: int) {
    0 <= i <= j <= |s| && t == s[i..j] && AllSpaces(s[..i]) && AllSpaces(s[j..])
  }

  lemma TrimSpaceIsTrim(s: string)
    ensures IsTrimOf(s, TrimSpace(s))
  {
    TrimSpaceTrims(s);
    TrimBoth(s, TrimLeft(s), TrimSpace(s));
  }

  lemma TrimBoth(s: string, u: string, t: string)
    requires u == TrimLeft(s) && t == TrimRight(u) && Trimmed(t)
    ensures IsTrimOf(s, t)
  {
    TrimLeftIsSuffix(s);
    TrimRightIsPrefix(u);
    TrimParts(s, u, t);
  }

  lemma TrimParts(s: string, u: string, t: string)
    requires |u| <= |s| && u == s[|s| - |u|..] && (forall k :: 0 <= k < |s| - |u| ==> IsSpace(s[k]))
    requires t <= u && (forall k :: |t| <= k < |u| ==> IsSpace(u[k])) && Trimmed(t)
    ensures IsTrimOf(s, t)
  {
    var i := |s| - |u|;
    var j := i + |t|;
    assert t == s[i..j] && AllSpaces(s[..i]);
    assert forall k :: 0 <= k < |s[j..]| ==> s[j..][k] == u[|t| + k];
    assert TrimmedAt(s, t, i, j);
  }

  lemma TrimIsUnique(s: string, t: string, u: string)
    requires IsTrimOf(s, t) && IsTrimOf(s, u)
    ensures t == u
  {
    var i, j :| TrimmedAt(s, t, i, j);
    var k, l :| TrimmedAt(s, u, k, l);
    SameTrim(s, i, j, k, l);
    SameTrim(s, k, l, i, j);
  }

  /** Where one way of trimming leaves something, the other begins no later and ends no earlier. */
  lemma SameTrim(s: string, i: nat, j: nat, k: nat, l: nat)
    requires i <= j <= |s| && Trimmed(s[i..j]) && k <= l <= |s| && AllSpaces(s[..k]) && AllSpaces(s[l..])
    ensures i < j ==> k <= i && j <= l
  {
    forall m | 0 <= m < k
      ensures IsSpace(s[m])
    {
      assert s[m] == s[..k][m];
    }
    forall m | l <= m < |s|
      ensures IsSpace(s[m])
    {
      assert s[m] == s[l..][m - l];
    }
    if i < j {
      var t := s[i..j];
      assert t[0] == s[i] && t[|t| - 1] == s[j - 1];
    }
  }

  // ----- splitting and joining

  /** The index of the first `c` in `s`, or `|s|`. */
  function IndexOf(s: string, c: char): (i: nat)
    ensures i <= |s| && c !in s[..i]
    ensures i < |s| ==> s[i] == c
    ensures i < |s| <==> c in s
  {
    if s == "" || s[0] == c then 0
    else
      var i := 1 + IndexOf(s[1..], c);
      assert s == [s[0]] + s[1..] && s[..i] == [s[0]] + s[1..][..i - 1];
      i
  }

  lemma IndexOfUnique(s: string, c: char, i: nat)
    requires i < |s| && s[i] == c && c !in s[..i]
    ensures IndexOf(s, c) == i
  {
    assert c in s;
    assert forall k :: 0 <= k < i ==> s[k] in s[..i];
  }

  /** `strings.Cut` around the first `c`; the second part is empty when there is none. */
  function Cut(s: string, c: char): (r: (string, string))
    ensures c !in r.0
    ensures c in s ==> s == r.0 + [c] + r.1
    ensures c !in s ==> r == (s, "")
  {
    var i := IndexOf(s, c);
    if i == |s| then (s, "") else (s[..i], s[i + 1..])
  }

  lemma CutUnique(left: string, c: char, right: string)
    requires c !in left
    ensures Cut(left + [c] + right, c) == (left, right)
  {
    var s := left + [c] + right;
    assert s[..|left|] == left && s[|left| + 1..] == right;
    IndexOfUnique(s, c, |left|);
  }

  /** `strings.Split` on a one-character separator: never empty, even for the empty text. */
  function Split(s: string, c: char): (parts: seq<string>)
    ensures |parts| > 0
    ensures forall p :: p in parts ==> c !in p
    decreases |s|
  {
    if c !in s then [s]
    else
      var (left, right) := Cut(s, c);
      [left] + Split(right, c)
  }

  function Join(parts: seq<string>, c: char): string {
    if parts == [] then ""
    else if |parts| == 1 then parts[0]
    else parts[0] + [c] + Join(parts[1..], c)
  }

  lemma {:induction false} JoinOfSplit(s: string, c: char)
    ensures Join(Split(s, c), c) == s
    decreases |s|
  {
    if c in s {
      var (left, right) := Cut(s, c);
      JoinOfSplit(right, c);
      assert Split(s, c)[1..] == Split(right, c);
    }
  }

  lemma SplitAtFirst(left: string, c: char, right: string)
    requires c !in left
    ensures Split(left + [c] + right, c) == [left] + Split(right, c)
  {
    assert (left + [c] + right)[|left|] == c;
    CutUnique(left, c, right);
  }

  lemma {:induction false} SplitOfJoin(parts: seq<string>, c: char)
    requires parts != []
    requires forall p :: p in parts ==> c !in p
    ensures Split(Join(parts, c), c) == parts
  {
    if |parts| == 1 {
    } else {
      SplitOfJoin(parts[1..], c);
      SplitAtFirst(parts[0], c, Join(parts[1..], c));
      assert parts == [parts[0]] + parts[1..];
    }
  }

  // ----- strings.Fields

  /** The length of the leading run of characters that are not white space. */
  function WordLength(s: string): (n: nat)
    ensures n <= |s|
    ensures forall k :: 0 <= k < n ==> !IsSpace(s[k])
    ensures n < |s| ==> IsSpace(s[n])
  {
    if s == "" || IsSpace(s[0]) then 0 else 1 + WordLength(s[1..])
  }

  function Fields(s: string): (words: seq<string>)
    ensures forall w :: w in words ==> w != "" && forall c :: c in w ==> !IsSpace(c)
    decreases |s|
  {
    TrimLeftIsSuffix(s);
    var t := TrimLeft(s);
    if t == "" then []
    else
      var n := WordLength(t);
      assert forall c :: c in t[..n] ==> !IsSpace(c);
      [t[..n]] + Fields(t[n..])
  }

  /** The words of a text: runs without white space, with nothing but white space between them. */
  ghost predicate IsFields(s: string, words: seq<string>)
    decreases |words|
  {
    if words == [] then AllSpaces(s)
    else exists i :: WordAt(s, words[0], i) && IsFields(s[i + |words[0]|..], words[1..])
  }

  /** The first word of the text stands at `i`. */
  predicate WordAt(s: string, w: string, i: int) {
    0 <= i && i + |w| <= |s| && AllSpaces(s[..i]) && StartsWord(s[i..], w)
  }

  /** The text begins with exactly this word. */
  predicate StartsWord(s: string, w: string) {
    && w != "" && w <= s && (forall k :: 0 <= k < |w| ==> !IsSpace(w[k]))
    && (|w| < |s| ==> IsSpace(s[|w|]))
  }

  lemma FirstWordAt(s: string, t: string, n: nat)
    requires t == TrimLeft(s) && t != "" && n == WordLength(t)
    ensures |t| <= |s| && n > 0 && WordAt(s, t[..n], |s| - |t|) && s[|s| - |t| + n..] == t[n..]
    ensures Fields(s) == [t[..n]] + Fields(t[n..])
  {
    TrimLeftIsSuffix(s);
    var i := |s| - |t|;
    assert t == s[i..] && AllSpaces(s[..i]) && StartsWord(t, t[..n]);
  }

  lemma {:induction false} FieldsAreTheWords(s: string)
    ensures IsFields(s, Fields(s))
    decreases |s|
  {
    var t := TrimLeft(s);
    if t == "" {
      TrimLeftIsSuffix(s);
    } else {
      var n := WordLength(t);
      FirstWordAt(s, t, n);
      FieldsAreTheWords(t[n..]);
      assert Fields(s)[0] == t[..n] && Fields(s)[1..] == Fields(t[n..]);
    }
  }

  lemma {:induction false} TrimLeftSkips(s: string, i: nat)
    requires i <= |s| && AllSpaces(s[..i]) && (i < |s| ==> !IsSpace(s[i]))
    ensures TrimLeft(s) == s[i..]
  {
    if i == 0 {
    } else {
      assert IsSpace(s[..i][0]);
      TrimLeftSkips(s[1..], i - 1);
      assert s[1..][..i - 1] == s[..i][1..];
    }
  }

  lemma WordLengthIs(s: string, w: string)
    requires StartsWord(s, w)
    ensures WordLength(s) == |w|
  {
    assert forall k :: 0 <= k < |w| ==> s[k] == w[k];
  }

  lemma FieldsBegin(s: string, i: nat, w: string)
    requires WordAt(s, w, i)
    ensures Fields(s) == [w] + Fields(s[i + |w|..])
  {
    assert s[i] == s[i..][0] == w[0];
    TrimLeftSkips(s, i);
    WordLengthIs(s[i..], w);
    assert s[i..][|w|..] == s[i + |w|..] && s[i..][..|w|] == w;
  }

  lemma NoFields(s: string)
    requires AllSpaces(s)
    ensures Fields(s) == []
  {
    assert s[..|s|] == s;
    TrimLeftSkips(s, |s|);
  }

  /** A text has one sequence of words. */
  lemma {:induction false} FieldsAreUnique(s: string, words: seq<string>)
    requires IsFields(s, words)
    ensures words == Fields(s)
    decreases |words|
  {
    if words == [] {
      NoFields(s);
    } else {
      var w := words[0];
      var i :| WordAt(s, w, i) && IsFields(s[i + |w|..], words[1..]);
      FieldsAreUnique(s[i + |w|..], words[1..]);
      FieldsBegin(s, i, w);
      assert words == [w] + words[1..];
    }
  }

  // ----- order

  /** The order of `sort.Strings`. UTF-8 keeps the order of the characters. */
  function CompareText(a: string, b: string): int {
    if a == "" || b == "" then |a| - |b|
    else if a[0] != b[0] then (if a[0] < b[0] then -1 else 1)
    else CompareText(a[1..], b[1..])
  }

  lemma {:induction false} CompareTextIsEquality(a: string, b: string)
    ensures CompareText(a, b) == 0 <==> a == b
  {
    if a != "" && b != "" {
      CompareTextIsEquality(a[1..], b[1..]);
      assert a == [a[0]] + a[1..] && b == [b[0]] + b[1..];
    }
  }

  /** `a` comes first: at the first difference it has the smaller character, or ends. */
  ghost predicate ComesFirst(a: string, b: string) {
    exists k :: 0 <= k <= |a| && k < |b| && a[..k] == b[..k] && (k < |a| ==> a[k] < b[k])
  }

  lemma {:induction false} CompareTextIsOrder(a: string, b: string)
    ensures CompareText(a, b) < 0 <==> ComesFirst(a, b)
  {
    if a == "" || b == "" {
      assert a == "" && b != "" ==> a[..0] == b[..0];
    } else {
      CompareTextIsOrder(a[1..], b[1..]);
      if a[0] == b[0] {
        if k :| 0 <= k <= |a[1..]| && k < |b[1..]| && a[1..][..k] == b[1..][..k] && (k < |a[1..]| ==> a[1..][k] < b[1..][k]) {
          assert a[..k + 1] == [a[0]] + a[1..][..k] && b[..k + 1] == [b[0]] + b[1..][..k];
        }
        if k :| 0 <= k <= |a| && k < |b| && a[..k] == b[..k] && (k < |a| ==> a[k] < b[k]) {
          assert k > 0;
          assert a[1..][..k - 1] == a[..k][1..] && b[1..][..k - 1] == b[..k][1..];
        }
      } else {
        assert a[..0] == b[..0];
        assert forall k :: 0 < k <= |a| && k < |b| && a[..k] == b[..k] ==> a[..k][0] == b[..k][0];
      }
    }
  }

  lemma {:induction false} CompareTextSwaps(a: string, b: string)
    ensures CompareText(a, b) < 0 <==> CompareText(b, a) > 0
  {
    if a != "" && b != "" {
      CompareTextSwaps(a[1..], b[1..]);
    }
  }

  lemma {:induction false} CompareTextChains(a: string, b: string, c: string)
    requires CompareText(a, b) <= 0 && CompareText(b, c) <= 0
    ensures CompareText(a, c) <= 0
  {
    if a != "" && b != "" && c != "" && a[0] == b[0] == c[0] {
      CompareTextChains(a[1..], b[1..], c[1..]);
    }
  }

  // ----- case folding and numbers

  /** `unicode.ToUpper`, exactly on every character whose image is an ASCII character. Other
      characters are left alone: their images are not ASCII either, so no name or number has them. */
  function Upper(c: char): char {
    if 'a' <= c <= 'z' then (c as int - 32) as char
    else if c == '\U{131}' then 'I'
    else if c == '\U{17F}' then 'S'
    else c
  }

  function ToUpper(s: string): (r: string)
    ensures |r| == |s| && forall k :: 0 <= k < |s| ==> r[k] == Upper(s[k])
  {
    seq(|s|, k requires 0 <= k < |s| => Upper(s[k]))
  }

  const LOWER := "abcdefghijklmnopqrstuvwxyz"
  const UPPER := "ABCDEFGHIJKLMNOPQRSTUVWXYZ"

  const DIGITS := "0123456789"

  lemma DigitsAre(c: char)
    ensures c in DIGITS <==> '0' <= c <= '9'
  {
    assert '0' <= c <= '9' ==> DIGITS[c as int - '0' as int] == c;
  }

  lemma CapitalsAre(c: char)
    ensures c in UPPER <==> 'A' <= c <= 'Z'
  {
    assert 'A' <= c <= 'Z' ==> UPPER[c as int - 'A' as int] == c;
  }

  lemma SmallLettersAre(c: char)
    ensures c in LOWER <==> 'a' <= c <= 'z'
  {
    assert 'a' <= c <= 'z' ==> LOWER[c as int - 'a' as int] == c;
  }

  /** Letter by letter; the only other characters it changes are a dotless i and a long s. */
  lemma UpperIs(c: char)
    ensures forall k :: 0 <= k < 26 ==> Upper(LOWER[k]) == UPPER[k]
    ensures c !in LOWER ==> Upper(c) == if c == '\U{131}' then 'I' else if c == '\U{17F}' then 'S' else c
  {
    SmallLettersAre(c);
  }

  const MAX_INT: int := 0x7FFF_FFFF_FFFF_FFFF
  const MIN_INT: int := -0x8000_0000_0000_0000

  /** The 64-bit two's complement value of an `int` expression. */
  function Wrap(x: int): (r: int)
    ensures MIN_INT <= r <= MAX_INT
    ensures MIN_INT <= x <= MAX_INT ==> r == x
    ensures 2 * MIN_INT <= x < MIN_INT ==> r == x + 0x1_0000_0000_0000_0000
    ensures MAX_INT < x <= 2 * MAX_INT ==> r == x - 0x1_0000_0000_0000_0000
  {
    (x - MIN_INT) % 0x1_0000_0000_0000_0000 + MIN_INT
  }

  predicate IsDigit(c: char) { '0' <= c <= '9' }

  predicate AllDigits(s: string) {
    forall k :: 0 <= k < |s| ==> IsDigit(s[k])
  }

  function Decimal(s: string): nat
    requires AllDigits(s)
  {
    if s == "" then 0 else 10 * Decimal(s[..|s| - 1]) + (s[|s| - 1] as int - '0' as int)
  }

  /** `strconv.Atoi` on a 64-bit platform. */
  function Atoi(s: string): (r: Option<int>)
    ensures r.Some? ==> MIN_INT <= r.value <= MAX_INT
  {
    var digits := if s != "" && (s[0] == '+' || s[0] == '-') then s[1..] else s;
    if digits == "" || !AllDigits(digits) then None
    else
      var magnitude: int := Decimal(digits);
      var n := if s[0] == '-' then -magnitude else magnitude;
      if MIN_INT <= n <= MAX_INT then Some(n) else None
  }

  /** An optional sign and digits, for a value that 64 bits hold. */
  ghost predicate IsNumeral(s: string, v: int) {
    && MIN_INT <= v <= MAX_INT
    && exists digits :: digits != "" && AllDigits(digits) &&
         ((v == Decimal(digits) && (s == digits || s == "+" + digits)) || (v + Decimal(digits) == 0 && s == "-" + digits))
  }

  lemma AtoiReadsNumerals(s: string, v: int)
    ensures Atoi(s) == Some(v) <==> IsNumeral(s, v)
  {
    var digits := if s != "" && (s[0] == '+' || s[0] == '-') then s[1..] else s;
    if Atoi(s) == Some(v) {
      assert s == digits || s == "+" + digits || s == "-" + digits;
      assert IsNumeral(s, v);
    }
    forall d | d != "" && AllDigits(d) && (s == d || s == "+" + d || s == "-" + d)
      ensures d == digits
    {
      assert IsDigit(d[0]);
      assert s != d ==> s[1..] == d;
    }
  }

  /** The decimal text of a number, as `strconv.Itoa` writes it. */
  function Itoa(n: nat): (s: string)
    ensures s != "" && AllDigits(s)
  {
    var last := [('0' as int + n % 10) as char];
    if n < 10 then last else Itoa(n / 10) + last
  }

  lemma {:induction false} DecimalOfItoa(n: nat)
    ensures Decimal(Itoa(n)) == n
  {
    if n >= 10 {
      DecimalOfItoa(n / 10);
      assert Itoa(n)[..|Itoa(n)| - 1] == Itoa(n / 10);
    }
  }

  lemma AtoiOfItoa(n: nat)
    requires n <= MAX_INT
    ensures Atoi(Itoa(n)) == Some(n)
  {
    DecimalOfItoa(n);
    assert IsDigit(Itoa(n)[0]);
  }
}
