/**
  `stripRule` and `normalizeRule` of updateHostsFile.py.

  `stripRule` keeps the first two words of a line. `normalizeRule` matches
  the regular expression `^[ \t]*(\d+\.\d+\.\d+\.\d+)\s+([\w\.-]+)(.*)` with
  `re.search`; here the pattern is matched by hand (`MatchRule`), and an
  independent, existential description of the text the pattern accepts
  (`HasRuleShape`) is proved to agree with it.
*/
module Rules {
  import opened Text
  import opened Outcomes

  /** `stripRule`: the first two words joined by one space, or "" when there are fewer. */
  function StripRule(line: string): (r: string)
    ensures r == "" <==> |Split(line)| < 2
    ensures r != "" ==> Split(r) == Split(line)[..2]
    ensures r != "" ==> r == JoinWith(" ", Split(r))
  {
    var splitLine := Split(line);
    if |splitLine| < 2 then ""
    else
      SplitJoin(splitLine[..2]);
      splitLine[0] + " " + splitLine[1]
  }

  /** Stripping a stripped rule changes nothing. */
  lemma StripRuleIdempotent(line: string)
    ensures StripRule(StripRule(line)) == StripRule(line)
  {
    var r := StripRule(line);
    if r != "" {
      assert Split(r)[..2] == Split(r);
    }
  }

  /** A line that is exactly two words separated by one space comes back unchanged. */
  lemma StripRuleKeepsTwoWords(a: string, b: string)
    requires IsToken(a) && IsToken(b)
    ensures StripRule(a + " " + b) == a + " " + b
  {
    SplitJoin([a, b]);
  }

  /** `[\w\.-]` */
  predicate IsHostChar(c: char) { IsWordChar(c) || c == '.' || c == '-' }

  /** What `normalizeRule` returns as the host name: non-empty, lower case, `[\w.-]` only. */
  predicate IsHostname(h: string) {
    && |h| > 0
    && forall k :: 0 <= k < |h| ==> IsHostChar(h[k]) && !IsUpper(h[k])
  }

  /** `\d+\.` matched greedily at offset `i`: the offset just past the dot. */
  function DigitsDot(s: string, i: nat): (r: Option<nat>)
    requires i <= |s|
    ensures r.Some? ==> i < r.value <= |s|
  {
    var j := Span(s, i, IsDigit);
    if j == i || j == |s| || s[j] != '.' then None else Some(j + 1)
  }

  /** `\d+\.\d+\.\d+\.\d+` matched greedily at offset `i`: the offset where it ends. */
  function QuadEnd(s: string, i: nat): (r: Option<nat>)
    requires i <= |s|
    ensures r.Some? ==> i < r.value <= |s|
  {
    match DigitsDot(s, i)
    case None => None
    case Some(i2) =>
      match DigitsDot(s, i2)
      case None => None
      case Some(i3) =>
        match DigitsDot(s, i3)
        case None => None
        case Some(i4) =>
          var j := Span(s, i4, IsDigit);
          if j == i4 then None else Some(j)
  }

  /** The three groups of a successful match. */
  datatype RuleMatch = RuleMatch(ip: string, hostname: string, suffix: string)

  /**
    The regular expression of `normalizeRule`, matched from the start of
    `rule`. Every part but the last is a run of one character class that the
    next part cannot start with, so the greedy runs are the only reading; the
    hostname group takes every `[\w.-]` character it can and `(.*)` takes the
    rest of the first line.
  */
  function MatchRule(rule: string): (m: Option<RuleMatch>)
    ensures m.Some? ==> |m.value.hostname| > 0
    ensures m.Some? ==> forall k :: 0 <= k < |m.value.hostname| ==> IsHostChar(m.value.hostname[k])
    ensures m.Some? ==> forall k :: 0 <= k < |m.value.suffix| ==> NotNewline(m.value.suffix[k])
  {
    var a := Span(rule, 0, IsBlank);
    match QuadEnd(rule, a)
    case None => None
    case Some(b) =>
      var c := Span(rule, b, IsSpace);
      if c == b then None
      else
        var e := Span(rule, c, IsHostChar);
        if e == c then None
        else
          var f := Span(rule, e, NotNewline);
          Some(RuleMatch(rule[a..b], rule[c..e], rule[e..f]))
  }

  // ---------------------------------------------------------------------
  // What the pattern accepts, stated without greedy scanning.

  /** Every character of `s[i..j]` satisfies `p`. */
  ghost predicate RunOf(s: string, i: int, j: int, p: char -> bool) {
    0 <= i <= j <= |s| && forall k :: i <= k < j ==> p(s[k])
  }

  /** `s[i..j]` reads `\d+\.\d+\.\d+\.\d+` with its dots at `d1`, `d2` and `d3`. */
  ghost predicate QuadAt(s: string, i: int, d1: int, d2: int, d3: int, j: int) {
    && i < d1 && RunOf(s, i, d1, IsDigit) && d1 < |s| && s[d1] == '.'
    && d1 + 1 < d2 && RunOf(s, d1 + 1, d2, IsDigit) && d2 < |s| && s[d2] == '.'
    && d2 + 1 < d3 && RunOf(s, d2 + 1, d3, IsDigit) && d3 < |s| && s[d3] == '.'
    && d3 + 1 < j && RunOf(s, d3 + 1, j, IsDigit)
  }

  /** Four dot-separated runs of digits and nothing else, like `1.2.3.4`. */
  ghost predicate IsDottedQuad(t: string) {
    exists d1, d2, d3 :: QuadAt(t, 0, d1, d2, d3, |t|)
  }

  /**
    `rule` reads: blanks up to `a`, a dotted quad up to `b`, whitespace up to
    `c`, then a hostname character.
  */
  ghost predicate RuleShapeAt(rule: string, a: int, d1: int, d2: int, d3: int, b: int, c: int) {
    && RunOf(rule, 0, a, IsBlank)
    && QuadAt(rule, a, d1, d2, d3, b)
    && b < c && RunOf(rule, b, c, IsSpace)
    && c < |rule| && IsHostChar(rule[c])
  }

  /** Some reading of `rule` matches the pattern of `normalizeRule`. */
  ghost predicate HasRuleShape(rule: string) {
    exists a, d1, d2, d3, b, c :: RuleShapeAt(rule, a, d1, d2, d3, b, c)
  }

  lemma HostCharIsNotSpace(c: char)
    requires IsHostChar(c)
    ensures NotSpace(c) && !IsBlank(c) && NotNewline(c)
  {
  }

  /** The greedy scan finds a dotted quad ending wherever the digits run out. */
  lemma QuadEndFinds(s: string, i: nat, d1: int, d2: int, d3: int, j: int)
    requires i <= |s|
    requires QuadAt(s, i, d1, d2, d3, j)
    requires j == |s| || !IsDigit(s[j])
    ensures QuadEnd(s, i) == Some(j)
  {
    SpanIsUnique(s, i, d1, IsDigit);
    assert DigitsDot(s, i) == Some(d1 + 1);
    SpanIsUnique(s, d1 + 1, d2, IsDigit);
    assert DigitsDot(s, d1 + 1) == Some(d2 + 1);
    SpanIsUnique(s, d2 + 1, d3, IsDigit);
    assert DigitsDot(s, d2 + 1) == Some(d3 + 1);
    SpanIsUnique(s, d3 + 1, j, IsDigit);
  }

  /** What the greedy scan finds is a dotted quad. */
  lemma QuadEndSound(s: string, i: nat) returns (d1: int, d2: int, d3: int)
    requires i <= |s|
    requires QuadEnd(s, i).Some?
    ensures QuadAt(s, i, d1, d2, d3, QuadEnd(s, i).value)
    ensures QuadEnd(s, i).value == |s| || !IsDigit(s[QuadEnd(s, i).value])
  {
    d1 := Span(s, i, IsDigit);
    d2 := Span(s, d1 + 1, IsDigit);
    d3 := Span(s, d2 + 1, IsDigit);
  }

  /** The hand-coded matcher succeeds exactly on the text the pattern describes. */
  lemma {:induction false} MatchRuleIffShape(rule: string)
    ensures MatchRule(rule).Some? <==> HasRuleShape(rule)
  {
    if MatchRule(rule).Some? {
      var a := Span(rule, 0, IsBlank);
      var b := QuadEnd(rule, a).value;
      var d1, d2, d3 := QuadEndSound(rule, a);
      var c := Span(rule, b, IsSpace);
      assert RuleShapeAt(rule, a, d1, d2, d3, b, c);
    }
    if HasRuleShape(rule) {
      var a, d1, d2, d3, b, c :| RuleShapeAt(rule, a, d1, d2, d3, b, c);
      SpanIsUnique(rule, 0, a, IsBlank);
      QuadEndFinds(rule, a, d1, d2, d3, b);
      HostCharIsNotSpace(rule[c]);
      SpanIsUnique(rule, b, c, IsSpace);
    }
  }

  /**
    `rule` reads the pattern with its groups at fixed places: the dotted quad
    in `rule[a..b]`, the longest `[\w.-]` run after the whitespace in
    `rule[c..e]`, and the rest of the first line in `rule[e..f]`.
  */
  ghost predicate MatchAt(rule: string, a: int, d1: int, d2: int, d3: int, b: int, c: int, e: int, f: int) {
    && RuleShapeAt(rule, a, d1, d2, d3, b, c)
    && RunOf(rule, c, e, IsHostChar) && (e == |rule| || !IsHostChar(rule[e]))
    && RunOf(rule, e, f, NotNewline) && (f == |rule| || rule[f] == '\n')
  }

  /**
    The groups of a match, read off the text: group 1 is the dotted quad
    after the leading blanks, group 2 the longest `[\w.-]` run after the
    whitespace, and group 3 the rest of the line up to its first newline.
  */
  lemma MatchRuleGroups(rule: string, a: int, d1: int, d2: int, d3: int, b: int, c: int, e: int, f: int)
    requires MatchAt(rule, a, d1, d2, d3, b, c, e, f)
    ensures MatchRule(rule) == Some(RuleMatch(rule[a..b], rule[c..e], rule[e..f]))
  {
    SpanIsUnique(rule, 0, a, IsBlank);
    QuadEndFinds(rule, a, d1, d2, d3, b);
    HostCharIsNotSpace(rule[c]);
    SpanIsUnique(rule, b, c, IsSpace);
    SpanIsUnique(rule, c, e, IsHostChar);
    SpanIsUnique(rule, e, f, NotNewline);
  }

  /** Lower-casing hostname characters gives a host name, which `strip()` leaves alone. */
  lemma LowerHostname(h: string)
    requires |h| > 0
    requires forall k :: 0 <= k < |h| ==> IsHostChar(h[k])
    ensures IsHostname(Lower(h))
    ensures Strip(Lower(h), IsSpace) == Lower(h)
  {
    var l := Lower(h);
    forall k | 0 <= k < |l|
      ensures IsHostChar(l[k]) && !IsUpper(l[k]) && NotSpace(l[k])
    {
      assert l[k] == LowerChar(h[k]);
    }
    StripAbsent(l, IsSpace);
  }

  /** The outcome of `normalizeRule`: the host name and the line to write. */
  datatype Normalized = Normalized(hostname: string, rule: string)

  /** The line `normalizeRule` writes for a match: the target address, the host name, the comment. */
  function Rewrite(m: RuleMatch, targetIp: string, keepDomainComments: bool): (r: Normalized)
    requires |m.hostname| > 0
    requires forall k :: 0 <= k < |m.hostname| ==> IsHostChar(m.hostname[k])
    ensures r.hostname == Lower(m.hostname) && IsHostname(r.hostname)
    ensures targetIp + " " + r.hostname <= r.rule
    ensures r.rule[|r.rule| - 1] == '\n'
  {
    LowerHostname(m.hostname);
    var hostname := Strip(Lower(m.hostname), IsSpace);
    var head := targetIp + " " + hostname;
    var tail := if m.suffix != "" && keepDomainComments then " #" + m.suffix + "\n" else "\n";
    assert head <= head + tail;
    Normalized(hostname, head + tail)
  }

  /**
    `normalizeRule`: `None` stands for the `(None, None)` the source returns
    (after printing the rule) when the pattern does not match.
  */
  function NormalizeRule(rule: string, targetIp: string, keepDomainComments: bool): (r: Option<Normalized>)
    ensures r.Some? <==> HasRuleShape(rule)
    ensures r.Some? ==> IsHostname(r.value.hostname)
    ensures r.Some? ==> targetIp + " " + r.value.hostname <= r.value.rule
    ensures r.Some? ==> r.value.rule[|r.value.rule| - 1] == '\n'
  {
    MatchRuleIffShape(rule);
    match MatchRule(rule)
    case None => None
    case Some(m) => Some(Rewrite(m, targetIp, keepDomainComments))
  }

  // ---------------------------------------------------------------------
  // `normalizeRule` applied to the output of `stripRule`, as the merge does.

  /** The longest `[\w.-]` prefix of a word: the part the hostname group takes. */
  function HostPrefixLength(t: string): (k: nat)
    ensures k <= |t|
  {
    Span(t, 0, IsHostChar)
  }

  /** In `t0 + " " + t1` the joining blank is the only whitespace. */
  lemma OnlySpaceIsTheJoint(t0: string, t1: string)
    requires IsToken(t0) && IsToken(t1)
    ensures forall k :: 0 <= k < |t0 + " " + t1| && IsSpace((t0 + " " + t1)[k]) ==> k == |t0|
  {
    var s := t0 + " " + t1;
    forall k | 0 <= k < |s| && k != |t0|
      ensures NotSpace(s[k])
    {
      if k < |t0| {
        assert s[k] == t0[k];
      } else {
        assert s[k] == t1[k - |t0| - 1];
      }
    }
  }

  /** On a stripped rule the pattern matches exactly when the first word is a dotted quad
      and the second starts with a hostname character. */
  lemma {:induction false} ShapeOfTwoWords(t0: string, t1: string)
    requires IsToken(t0) && IsToken(t1)
    ensures HasRuleShape(t0 + " " + t1) <==> IsDottedQuad(t0) && IsHostChar(t1[0])
  {
    var s := t0 + " " + t1;
    assert forall k :: 0 <= k < |t0| ==> s[k] == t0[k];
    assert s[|t0|] == ' ';
    assert s[|t0| + 1] == t1[0];
    OnlySpaceIsTheJoint(t0, t1);
    if HasRuleShape(s) {
      var a, d1, d2, d3, b, c :| RuleShapeAt(s, a, d1, d2, d3, b, c);
      assert NotSpace(s[0]);
      assert a == 0;
      assert IsSpace(s[b]);
      assert b == |t0|;
      assert NotSpace(s[|t0| + 1]);
      assert c == |t0| + 1;
      assert QuadAt(t0, 0, d1, d2, d3, |t0|);
    }
    if IsDottedQuad(t0) && IsHostChar(t1[0]) {
      var d1, d2, d3 :| QuadAt(t0, 0, d1, d2, d3, |t0|);
      assert RuleShapeAt(s, 0, d1, d2, d3, |t0|, |t0| + 1);
    }
  }

  /** The cut points of a successful match. */
  lemma MatchRuleCuts(rule: string) returns (b: nat, c: nat, e: nat, f: nat)
    requires MatchRule(rule).Some?
    ensures QuadEnd(rule, Span(rule, 0, IsBlank)) == Some(b)
    ensures c == Span(rule, b, IsSpace) && b < c
    ensures e == Span(rule, c, IsHostChar) && c < e
    ensures f == Span(rule, e, NotNewline)
    ensures MatchRule(rule).value.hostname == rule[c..e]
    ensures MatchRule(rule).value.suffix == rule[e..f]
  {
    b := QuadEnd(rule, Span(rule, 0, IsBlank)).value;
    c := Span(rule, b, IsSpace);
    e := Span(rule, c, IsHostChar);
    f := Span(rule, e, NotNewline);
  }

  lemma SliceOfJoin(t0: string, t1: string, k: nat)
    requires k <= |t1|
    ensures (t0 + " " + t1)[|t0| + 1..|t0| + 1 + k] == t1[..k]
    ensures (t0 + " " + t1)[|t0| + 1 + k..] == t1[k..]
  {
  }

  /** Where the matcher's scans stop on two words joined by one space. */
  lemma TwoWordCuts(t0: string, t1: string, b: nat, c: nat, e: nat, f: nat)
    requires IsToken(t0) && IsToken(t1)
    requires b < c <= |t0 + " " + t1| && IsSpace((t0 + " " + t1)[b])
    requires c == Span(t0 + " " + t1, b, IsSpace)
    requires e == Span(t0 + " " + t1, c, IsHostChar)
    requires f == Span(t0 + " " + t1, e, NotNewline)
    ensures c == |t0| + 1
    ensures e == c + HostPrefixLength(t1)
    ensures f == |t0 + " " + t1|
  {
    var s := t0 + " " + t1;
    SpaceIsTheJoint(t0, t1, b);
    CharAfterJoint(t0, t1);
    SpanIsUnique(s, b, |t0| + 1, IsSpace);
    SuffixAfterJoint(t0, t1);
    SpanOfSuffix(s, c, IsHostChar);
    NoNewlineAfter(t0, t1, HostPrefixLength(t1));
  }

  /** The groups the matcher returns on a stripped rule: the hostname group is the
      `[\w.-]` prefix of the second word and the suffix is the rest of that word. */
  lemma {:induction false} MatchTwoWords(t0: string, t1: string)
    requires IsToken(t0) && IsToken(t1)
    requires MatchRule(t0 + " " + t1).Some?
    ensures MatchRule(t0 + " " + t1).value.hostname == t1[..HostPrefixLength(t1)]
    ensures MatchRule(t0 + " " + t1).value.suffix == t1[HostPrefixLength(t1)..]
  {
    var b, c, e, f := MatchRuleCuts(t0 + " " + t1);
    TwoWordCuts(t0, t1, b, c, e, f);
    SliceOfJoin(t0, t1, HostPrefixLength(t1));
  }

  /** In `t0 + " " + t1` the joining blank is the only whitespace. */
  lemma SpaceIsTheJoint(t0: string, t1: string, i: int)
    requires IsToken(t0) && IsToken(t1)
    requires 0 <= i < |t0 + " " + t1| && IsSpace((t0 + " " + t1)[i])
    ensures i == |t0|
  {
  }

  lemma CharAfterJoint(t0: string, t1: string)
    requires IsToken(t1)
    ensures (t0 + " " + t1)[|t0| + 1] == t1[0] && NotSpace(t1[0])
  {
  }

  lemma SuffixAfterJoint(t0: string, t1: string)
    ensures (t0 + " " + t1)[|t0| + 1..] == t1
  {
  }

  /** After the hostname prefix of the second word nothing stops `(.*)`. */
  lemma NoNewlineAfter(t0: string, t1: string, k: nat)
    requires IsToken(t1) && k <= |t1|
    ensures Span(t0 + " " + t1, |t0| + 1 + k, NotNewline) == |t0 + " " + t1|
  {
    var s := t0 + " " + t1;
    forall i | |t0| + 1 + k <= i < |s|
      ensures NotNewline(s[i])
    {
      assert s[i] == t1[i - |t0| - 1];
    }
    SpanIsUnique(s, |t0| + 1 + k, |s|, NotNewline);
  }

  /**
    `normalizeRule(stripRule(line))` in terms of the line's first two words:
    it succeeds exactly when the first is a dotted quad and the second starts
    with a hostname character; the host name is the lower-cased `[\w.-]`
    prefix of the second word, and the rest of that word becomes a `#`
    comment only when it is non-empty and comments are kept.
  */
  lemma {:induction false} NormalizeStrippedRule(line: string, targetIp: string, keepDomainComments: bool)
    requires |Split(line)| >= 2
    ensures var t0, t1 := Split(line)[0], Split(line)[1];
      (NormalizeRule(StripRule(line), targetIp, keepDomainComments).Some?
       <==> IsDottedQuad(t0) && IsHostChar(t1[0]))
    ensures var t1 := Split(line)[1];
      var k := HostPrefixLength(t1);
      var r := NormalizeRule(StripRule(line), targetIp, keepDomainComments);
      r.Some? ==>
        && r.value.hostname == Lower(t1[..k])
        && (k < |t1| && keepDomainComments ==>
              r.value.rule == targetIp + " " + Lower(t1[..k]) + " #" + t1[k..] + "\n")
        && (!(k < |t1| && keepDomainComments) ==>
              r.value.rule == targetIp + " " + Lower(t1[..k]) + "\n")
  {
    var t0, t1 := Split(line)[0], Split(line)[1];
    var s := StripRule(line);
    assert s == t0 + " " + t1;
    ShapeOfTwoWords(t0, t1);
    MatchRuleIffShape(s);
    if MatchRule(s).Some? {
      MatchTwoWords(t0, t1);
      NormalizeRuleValue(s, targetIp, keepDomainComments);
    }
  }

  /** The line `normalizeRule` builds from a successful match. */
  lemma {:induction false} NormalizeRuleValue(rule: string, targetIp: string, keepDomainComments: bool)
    requires MatchRule(rule).Some?
    ensures var m := MatchRule(rule).value;
      var r := NormalizeRule(rule, targetIp, keepDomainComments);
      && r.Some?
      && r.value.hostname == Lower(m.hostname)
      && (m.suffix != "" && keepDomainComments ==>
            r.value.rule == targetIp + " " + Lower(m.hostname) + " #" + m.suffix + "\n")
      && (!(m.suffix != "" && keepDomainComments) ==>
            r.value.rule == targetIp + " " + Lower(m.hostname) + "\n")
  {
    var m := MatchRule(rule).value;
    assert NormalizeRule(rule, targetIp, keepDomainComments) == Some(Rewrite(m, targetIp, keepDomainComments));
    RewriteValue(m, targetIp, keepDomainComments);
  }

  /**
    `normalizeRule` on any line of the accepted shape, in terms of the line's
    own text: the host name is the lower-cased `[\w.-]` run after the
    whitespace, and the comment is whatever follows it on the first line.
  */
  lemma NormalizeRuleOfShape(rule: string, a: int, d1: int, d2: int, d3: int, b: int, c: int, e: int, f: int,
                             targetIp: string, keepDomainComments: bool)
    requires MatchAt(rule, a, d1, d2, d3, b, c, e, f)
    ensures var r := NormalizeRule(rule, targetIp, keepDomainComments);
      && r.Some?
      && r.value.hostname == Lower(rule[c..e])
      && (e < f && keepDomainComments ==>
            r.value.rule == targetIp + " " + Lower(rule[c..e]) + " #" + rule[e..f] + "\n")
      && (!(e < f && keepDomainComments) ==>
            r.value.rule == targetIp + " " + Lower(rule[c..e]) + "\n")
  {
    MatchRuleGroups(rule, a, d1, d2, d3, b, c, e, f);
    assert rule[e..f] != "" <==> e < f;
    NormalizeRuleOfGroups(rule, rule[a..b], rule[c..e], rule[e..f], targetIp, keepDomainComments);
  }

  /** `normalizeRule` in terms of the groups of its match. */
  lemma NormalizeRuleOfGroups(rule: string, ip: string, host: string, suffix: string,
                              targetIp: string, keepDomainComments: bool)
    requires MatchRule(rule) == Some(RuleMatch(ip, host, suffix))
    ensures var r := NormalizeRule(rule, targetIp, keepDomainComments);
      && r.Some?
      && r.value.hostname == Lower(host)
      && (suffix != "" && keepDomainComments ==> r.value.rule == targetIp + " " + Lower(host) + " #" + suffix + "\n")
      && (!(suffix != "" && keepDomainComments) ==> r.value.rule == targetIp + " " + Lower(host) + "\n")
  {
    NormalizeRuleValue(rule, targetIp, keepDomainComments);
  }

  lemma RewriteValue(m: RuleMatch, targetIp: string, keepDomainComments: bool)
    requires |m.hostname| > 0
    requires forall k :: 0 <= k < |m.hostname| ==> IsHostChar(m.hostname[k])
    ensures var r := Rewrite(m, targetIp, keepDomainComments);
      && (m.suffix != "" && keepDomainComments ==>
            r.rule == targetIp + " " + Lower(m.hostname) + " #" + m.suffix + "\n")
      && (!(m.suffix != "" && keepDomainComments) ==>
            r.rule == targetIp + " " + Lower(m.hostname) + "\n")
  {
    LowerHostname(m.hostname);
  }

  /** A dotted quad is a single word. */
  lemma DottedQuadIsToken(t: string)
    requires IsDottedQuad(t)
    ensures IsToken(t)
  {
    var d1, d2, d3 :| QuadAt(t, 0, d1, d2, d3, |t|);
    forall k | 0 <= k < |t|
      ensures NotSpace(t[k])
    {
      assert IsDigit(t[k]) || t[k] == '.';
    }
  }

  /**
    A rule line in the form `normalizeRule` writes (without a comment) is a
    fixed point: reading it back through `stripRule` and `normalizeRule`
    gives the same host name and the same line.
  */
  lemma {:induction false} CanonicalRuleIsFixedPoint(targetIp: string, hostname: string, keepDomainComments: bool)
    requires IsDottedQuad(targetIp)
    requires IsHostname(hostname)
    ensures var line := targetIp + " " + hostname + "\n";
      NormalizeRule(StripRule(line), targetIp, keepDomainComments) == Some(Normalized(hostname, line))
  {
    var line := targetIp + " " + hostname + "\n";
    DottedQuadIsToken(targetIp);
    forall k | 0 <= k < |hostname|
      ensures NotSpace(hostname[k])
    {
      HostCharIsNotSpace(hostname[k]);
    }
    SplitPairThenSpace(targetIp, hostname, "\n");
    assert Split(line)[0] == targetIp && Split(line)[1] == hostname;
    SpanIsUnique(hostname, 0, |hostname|, IsHostChar);
    assert HostPrefixLength(hostname) == |hostname|;
    assert hostname[..|hostname|] == hostname;
    LowerIsLowerCase(hostname);
    NormalizeStrippedRule(line, targetIp, keepDomainComments);
    var r := NormalizeRule(StripRule(line), targetIp, keepDomainComments);
    assert r.value.hostname == hostname;
    assert r.value.rule == line;
  }

  /** A dotted quad not followed by whitespace is no rule. */
  lemma NoGapIsNoRule(rule: string, b: nat)
    requires QuadEnd(rule, Span(rule, 0, IsBlank)) == Some(b)
    requires b == |rule| || !IsSpace(rule[b])
    ensures MatchRule(rule).None?
  {
    SpanIsUnique(rule, b, b, IsSpace);
  }

  /** The greedy scan reads `128.0.0.1` whole. */
  lemma BareAddressQuad()
    ensures QuadEnd("128.0.0.1", 0) == Some(9)
  {
    var s := "128.0.0.1";
    assert QuadAt(s, 0, 3, 5, 7, 9);
    QuadEndFinds(s, 0, 3, 5, 7, 9);
  }

  /** An address with nothing after it: no whitespace follows the quad. */
  lemma BareAddressIsNoRule()
    ensures MatchRule("128.0.0.1").None?
  {
    var s := "128.0.0.1";
    SpanIsUnique(s, 0, 0, IsBlank);
    BareAddressQuad();
    NoGapIsNoRule(s, 9);
  }

  /** Three numbers only: the third is followed by a space, not a dot. */
  lemma ThreeNumbersAreNoRule()
    ensures MatchRule("0.0.0 google").None?
  {
    var s := "0.0.0 google";
    SpanIsUnique(s, 0, 0, IsBlank);
    ThreeNumbersQuad();
  }

  /** The greedy scan of `0.0.0 google` finds no fourth number. */
  lemma ThreeNumbersQuad()
    ensures QuadEnd("0.0.0 google", 0) == None
  {
    var s := "0.0.0 google";
    assert DigitsDot(s, 0) == Some(2) by { SpanIsUnique(s, 0, 1, IsDigit); }
    assert DigitsDot(s, 2) == Some(4) by { SpanIsUnique(s, 2, 3, IsDigit); }
    assert DigitsDot(s, 4) == None by { SpanIsUnique(s, 4, 5, IsDigit); }
  }

  /** The greedy scan stops after the fourth number of `0.1.2.3.4`. */
  lemma FiveNumbersQuad()
    ensures QuadEnd("0.1.2.3.4 foo/bar", 0) == Some(7)
    ensures "0.1.2.3.4 foo/bar"[7] == '.'
  {
    var s := "0.1.2.3.4 foo/bar";
    assert QuadAt(s, 0, 1, 3, 5, 7);
    QuadEndFinds(s, 0, 1, 3, 5, 7);
  }

  /** Five numbers: the quad ends at the fourth, and a dot, not whitespace, follows. */
  lemma FiveNumbersAreNoRule()
    ensures MatchRule("0.1.2.3.4 foo/bar").None?
  {
    var s := "0.1.2.3.4 foo/bar";
    SpanIsUnique(s, 0, 0, IsBlank);
    FiveNumbersQuad();
    NoGapIsNoRule(s, 7);
  }

  /** Words without a leading address are refused. */
  lemma BareWordsAreNoRules()
    ensures MatchRule("foo").None?
    ensures MatchRule("bar.com/usa").None?
    ensures MatchRule("twitter.com").None?
  {
    SpanIsUnique("foo", 0, 0, IsBlank);
    SpanIsUnique("foo", 0, 0, IsDigit);
    SpanIsUnique("bar.com/usa", 0, 0, IsBlank);
    SpanIsUnique("bar.com/usa", 0, 0, IsDigit);
    SpanIsUnique("twitter.com", 0, 0, IsBlank);
    SpanIsUnique("twitter.com", 0, 0, IsDigit);
  }

  /**
    Lines without an address, a host name, or the whitespace between them
    are refused: the examples the repository's tests list as non-rules.
  */
  lemma RejectedRules(targetIp: string, keepDomainComments: bool)
    ensures NormalizeRule("foo", targetIp, keepDomainComments).None?
    ensures NormalizeRule("128.0.0.1", targetIp, keepDomainComments).None?
    ensures NormalizeRule("bar.com/usa", targetIp, keepDomainComments).None?
    ensures NormalizeRule("0.0.0 google", targetIp, keepDomainComments).None?
    ensures NormalizeRule("0.1.2.3.4 foo/bar", targetIp, keepDomainComments).None?
    ensures NormalizeRule("twitter.com", targetIp, keepDomainComments).None?
  {
    BareWordsAreNoRules();
    BareAddressIsNoRule();
    ThreeNumbersAreNoRule();
    FiveNumbersAreNoRule();
  }
}
