/**
  Character classes and the handful of Python `str` operations the hosts
  merger relies on: `split()`, `strip`/`rstrip` with a character set,
  `lower()`, `in`, `sep.join` and `readlines()`.

  Digits, letters and word characters are ASCII only; whitespace is the set
  Python's `str.isspace()` (and the regular-expression class `\s`) accepts.
*/
module Text {

  /** Python's `str.isspace()`, which is also what `\s` matches in a `str` pattern. */
  predicate IsSpace(c: char) {
    || c == ' '
    || ('\t' <= c <= '\r')
    || ('\U{1C}' <= c <= '\U{1F}')
    || c == '\U{85}'
    || c == '\U{A0}'
    || c == '\U{1680}'
    || ('\U{2000}' <= c <= '\U{200A}')
    || c == '\U{2028}'
    || c == '\U{2029}'
    || c == '\U{202F}'
    || c == '\U{205F}'
    || c == '\U{3000}'
  }

  predicate NotSpace(c: char) { !IsSpace(c) }

  /** `\d`, restricted to ASCII. */
  predicate IsDigit(c: char) { '0' <= c <= '9' }

  predicate IsUpper(c: char) { 'A' <= c <= 'Z' }

  predicate IsLetter(c: char) { IsUpper(c) || ('a' <= c <= 'z') }

  /** `\w`, restricted to ASCII. */
  predicate IsWordChar(c: char) { IsLetter(c) || IsDigit(c) || c == '_' }

  /** `[ \t]` */
  predicate IsBlank(c: char) { c == ' ' || c == '\t' }

  /** What the regular-expression `.` matches (no DOTALL flag). */
  predicate NotNewline(c: char) { c != '\n' }

  function LowerChar(c: char): char {
    if IsUpper(c) then (c as int + 32) as char else c
  }

  /** `str.lower()` on ASCII letters; every other character is kept. */
  function Lower(s: string): (r: string)
    ensures |r| == |s|
    ensures forall k :: 0 <= k < |s| ==> r[k] == LowerChar(s[k])
  {
    seq(|s|, k requires 0 <= k < |s| => LowerChar(s[k]))
  }

  predicate IsLowerCase(s: string) {
    forall k :: 0 <= k < |s| ==> !IsUpper(s[k])
  }

  lemma LowerIsLowerCase(s: string)
    ensures IsLowerCase(Lower(s))
    ensures IsLowerCase(s) ==> Lower(s) == s
  {
  }

  /** `part` occurs in `s` starting at offset `i`. */
  predicate OccursAt(s: string, part: string, i: int) {
    0 <= i <= |s| - |part| && s[i..i + |part|] == part
  }

  /** Python's `part in s` for strings. */
  predicate Contains(s: string, part: string) {
    exists i :: 0 <= i <= |s| - |part| && OccursAt(s, part, i)
  }

  /**
    The end of the longest run of characters satisfying `p` that starts at
    `i`: the greedy `p*` of a regular expression.
  */
  function Span(s: string, i: nat, p: char -> bool): (j: nat)
    requires i <= |s|
    ensures i <= j <= |s|
    ensures forall k :: i <= k < j ==> p(s[k])
    ensures j == |s| || !p(s[j])
    decreases |s| - i
  {
    if i == |s| || !p(s[i]) then i else Span(s, i + 1, p)
  }

  /** A run that cannot be extended is the one `Span` finds. */
  lemma SpanIsUnique(s: string, i: nat, j: nat, p: char -> bool)
    requires i <= j <= |s|
    requires forall k :: i <= k < j ==> p(s[k])
    requires j == |s| || !p(s[j])
    ensures Span(s, i, p) == j
  {
  }

  /** Scanning inside a suffix gives the same run, shifted. */
  lemma SpanOfSuffix(s: string, i: nat, p: char -> bool)
    requires i <= |s|
    ensures Span(s, i, p) == i + Span(s[i..], 0, p)
  {
    var t := s[i..];
    var j := Span(t, 0, p);
    assert forall k :: i <= k < i + j ==> s[k] == t[k - i];
    SpanIsUnique(s, i, i + j, p);
  }

  /** Scanning a prefix gives the same run when the prefix ends where the run must stop. */
  lemma SpanOfPrefix(s: string, n: nat, i: nat, p: char -> bool)
    requires i <= n <= |s|
    requires n == |s| || !p(s[n])
    ensures Span(s, i, p) == Span(s[..n], i, p)
  {
    var t := s[..n];
    var j := Span(t, i, p);
    assert forall k :: i <= k < j ==> s[k] == t[k];
    SpanIsUnique(s, i, j, p);
  }

  /** `s.rstrip(chars)` where `p` says which characters are in `chars`. */
  function TrimRight(s: string, p: char -> bool): (r: string)
    ensures r <= s
    ensures r == [] || !p(r[|r| - 1])
    ensures forall k :: |r| <= k < |s| ==> p(s[k])
    decreases |s|
  {
    if |s| > 0 && p(s[|s| - 1]) then TrimRight(s[..|s| - 1], p) else s
  }

  /** `s.lstrip(chars)` where `p` says which characters are in `chars`. */
  function TrimLeft(s: string, p: char -> bool): (r: string)
    ensures |r| <= |s| && r == s[|s| - |r|..]
    ensures r == [] || !p(r[0])
    ensures forall k :: 0 <= k < |s| - |r| ==> p(s[k])
    decreases |s|
  {
    if |s| > 0 && p(s[0]) then TrimLeft(s[1..], p) else s
  }

  /** `s.strip(chars)`. */
  function Strip(s: string, p: char -> bool): (r: string)
    ensures r == [] || (!p(r[0]) && !p(r[|r| - 1]))
  {
    TrimLeft(TrimRight(s, p), p)
  }

  /** Stripping characters that do not occur changes nothing. */
  lemma StripAbsent(s: string, p: char -> bool)
    requires forall k :: 0 <= k < |s| ==> !p(s[k])
    ensures Strip(s, p) == s
  {
  }

  /** Stripping twice is stripping once. */
  lemma StripOfStripped(s: string, p: char -> bool)
    ensures Strip(Strip(s, p), p) == Strip(s, p)
  {
    var r := Strip(s, p);
    assert TrimRight(r, p) == r;
  }

  /** A word of `str.split()`: non-empty and free of whitespace. */
  predicate IsToken(t: string) {
    |t| > 0 && forall k :: 0 <= k < |t| ==> NotSpace(t[k])
  }

  /** `s.split()`: the maximal runs of non-whitespace characters, in order. */
  function Split(s: string): (toks: seq<string>)
    ensures forall k :: 0 <= k < |toks| ==> IsToken(toks[k])
    decreases |s|
  {
    if |s| == 0 then []
    else if IsSpace(s[0]) then Split(s[1..])
    else
      var j := Span(s, 0, NotSpace);
      [s[..j]] + Split(s[j..])
  }

  /** `sep.join(xs)`. */
  function JoinWith(sep: string, xs: seq<string>): string
    decreases |xs|
  {
    if |xs| == 0 then ""
    else if |xs| == 1 then xs[0]
    else xs[0] + sep + JoinWith(sep, xs[1..])
  }

  /** Splitting text that starts with a whole word yields that word first. */
  lemma SplitAfterToken(t: string, rest: string)
    requires IsToken(t)
    requires rest == [] || IsSpace(rest[0])
    ensures Split(t + rest) == [t] + Split(rest)
  {
    var s := t + rest;
    SpanIsUnique(s, 0, |t|, NotSpace);
    assert s[..|t|] == t;
    assert s[|t|..] == rest;
  }

  /** `" ".join` of words is undone by `split()`. */
  lemma {:induction false} SplitJoin(toks: seq<string>)
    requires forall k :: 0 <= k < |toks| ==> IsToken(toks[k])
    ensures Split(JoinWith(" ", toks)) == toks
    decreases |toks|
  {
    if |toks| == 0 {
    } else if |toks| == 1 {
      SplitAfterToken(toks[0], "");
      assert toks[0] + "" == toks[0];
    } else {
      var rest := JoinWith(" ", toks[1..]);
      assert JoinWith(" ", toks) == toks[0] + (" " + rest);
      SplitAfterToken(toks[0], " " + rest);
      assert (" " + rest)[1..] == rest;
      SplitJoin(toks[1..]);
      assert [toks[0]] + toks[1..] == toks;
    }
  }

  /** Splitting a canonical two-word rule followed by whitespace yields both words. */
  lemma {:induction false} SplitPairThenSpace(a: string, b: string, ws: string)
    requires IsToken(a) && IsToken(b)
    requires forall k :: 0 <= k < |ws| ==> IsSpace(ws[k])
    ensures Split(a + " " + b + ws) == [a, b]
  {
    var tail := " " + (b + ws);
    assert a + " " + b + ws == a + tail;
    assert tail[1..] == b + ws;
    SplitAllSpace(ws);
    SplitAfterToken(b, ws);
    SplitLeadingSpace(tail);
    SplitAfterToken(a, tail);
  }

  /** Leading whitespace yields no word. */
  lemma SplitLeadingSpace(s: string)
    requires |s| > 0 && IsSpace(s[0])
    ensures Split(s) == Split(s[1..])
  {
  }

  /** Text made only of whitespace has no words. */
  lemma {:induction false} SplitAllSpace(ws: string)
    requires forall k :: 0 <= k < |ws| ==> IsSpace(ws[k])
    ensures Split(ws) == []
    decreases |ws|
  {
    if |ws| > 0 {
      SplitAllSpace(ws[1..]);
    }
  }

  /** Cutting `b` off the end of `a + b` leaves `a`. */
  lemma AppendParts(a: string, b: string)
    ensures |a + b| - |b| == |a|
    ensures (a + b)[..|a + b| - |b|] == a && (a + b)[|a + b| - |b|..] == b
  {
    assert (a + b)[..|a|] == a;
  }

  /** The concatenation of a sequence of strings. */
  function Concat(xs: seq<string>): string
    decreases |xs|
  {
    if |xs| == 0 then "" else xs[0] + Concat(xs[1..])
  }

  lemma {:induction false} ConcatAppend(xs: seq<string>, ys: seq<string>)
    ensures Concat(xs + ys) == Concat(xs) + Concat(ys)
    decreases |xs|
  {
    if |xs| == 0 {
      assert xs + ys == ys;
    } else {
      assert (xs + ys)[1..] == xs[1..] + ys;
      ConcatAppend(xs[1..], ys);
    }
  }

  /** A line as `readlines()` yields it: a newline can only be its last character. */
  predicate IsLine(line: string, last: bool) {
    && |line| > 0
    && (forall k :: 0 <= k < |line| - 1 ==> line[k] != '\n')
    && (!last ==> line[|line| - 1] == '\n')
  }

  /**
    `readlines()` on a file's contents: each line keeps its terminating
    newline, and the last line may lack one.
  */
  function ReadLines(text: string): (lines: seq<string>)
    ensures Concat(lines) == text
    ensures forall k :: 0 <= k < |lines| ==> IsLine(lines[k], k == |lines| - 1)
    decreases |text|
  {
    if |text| == 0 then []
    else
      var j := Span(text, 0, NotNewline);
      if j == |text| then
        assert Concat([text]) == text + Concat([]);
        [text]
      else
        var rest := ReadLines(text[j + 1..]);
        assert ([text[..j + 1]] + rest)[1..] == rest;
        assert text[..j + 1] + text[j + 1..] == text;
        [text[..j + 1]] + rest
  }

  /** The characters other than `sep`. */
  function Other(sep: char): char -> bool {
    c => c != sep
  }

  /** Splitting on a single separator character, like `s.split(sep)`. */
  function SplitOn(s: string, sep: char): (parts: seq<string>)
    ensures |parts| > 0
    ensures forall k, m :: 0 <= k < |parts| && 0 <= m < |parts[k]| ==> parts[k][m] != sep
    decreases |s|
  {
    var j := Span(s, 0, Other(sep));
    if j == |s| then
      assert s[..j] == s;
      [s]
    else [s[..j]] + SplitOn(s[j + 1..], sep)
  }

  /** A piece without the separator is not split. */
  lemma SplitOnWhole(w: string, sep: char)
    requires forall m :: 0 <= m < |w| ==> w[m] != sep
    ensures SplitOn(w, sep) == [w]
  {
    SpanIsUnique(w, 0, |w|, Other(sep));
  }

  /** A piece without the separator, then the separator, is split off first. */
  lemma SplitOnStep(w: string, rest: string, sep: char)
    requires forall m :: 0 <= m < |w| ==> w[m] != sep
    ensures SplitOn(w + [sep] + rest, sep) == [w] + SplitOn(rest, sep)
  {
    var s := w + [sep] + rest;
    assert forall k :: 0 <= k < |w| ==> s[k] == w[k];
    SpanIsUnique(s, 0, |w|, Other(sep));
    assert s[..|w|] == w;
    assert s[|w| + 1..] == rest;
  }

  /** `sep.join` is undone by splitting on `sep` when no part contains it. */
  lemma {:induction false} SplitOnJoin(xs: seq<string>, sep: char)
    requires |xs| > 0
    requires forall k, m :: 0 <= k < |xs| && 0 <= m < |xs[k]| ==> xs[k][m] != sep
    ensures SplitOn(JoinWith([sep], xs), sep) == xs
    decreases |xs|
  {
    if |xs| == 1 {
      SplitOnWhole(xs[0], sep);
    } else {
      SplitOnStep(xs[0], JoinWith([sep], xs[1..]), sep);
      SplitOnJoin(xs[1..], sep);
      assert [xs[0]] + xs[1..] == xs;
    }
  }
}
