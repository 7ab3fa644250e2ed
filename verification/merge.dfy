/**
  The line loop of `removeDupsAndExcl` in updateHostsFile.py: a left fold
  over the lines of the merged source file that carries what has been
  written, the set of host names already seen and the number of rules.

  `Fold` is the loop as written. `Expected` says independently what ends up
  in the output: every pass-through line, and the rule of the first
  acceptable line for each host name that is not reserved.
*/
module Merge {
  import opened Outcomes
  import opened Text
  import opened Rules
  import opened Exclusions

  /** The host names the seen set starts with; input lines never claim them. */
  const Reserved: set<string> := {"localhost", "localhost.localdomain", "local", "broadcasthost"}

  /** The settings the loop reads. */
  datatype Config = Config(
    targetIp: string,
    keepDomainComments: bool,
    exclusionRegexes: seq<ExclusionRegex>,
    exclusions: seq<string>)

  // ---------------------------------------------------------------------
  // Preparing a line.

  /** A tab immediately followed by `+` starts at offset `k` of `s`. */
  predicate TabPlusAt(s: string, k: int) {
    0 <= k && k + 1 < |s| && s[k] == '\t' && s[k + 1] == '+'
  }

  /** `s.replace("\t+", " ")`: the two-character text, not a regular expression. */
  function ReplaceTabPlus(s: string): (r: string)
    ensures |r| <= |s|
    ensures |s| > 0 ==> |r| > 0 && r[0] == (if TabPlusAt(s, 0) then ' ' else s[0])
    ensures forall k :: !TabPlusAt(r, k)
    decreases |s|
  {
    if |s| < 2 then s
    else if TabPlusAt(s, 0) then
      var rest := ReplaceTabPlus(s[2..]);
      assert forall k :: TabPlusAt(s[2..], k) ==> TabPlusAt(s, k + 2);
      ConsNoTabPlus(' ', rest);
      " " + rest
    else
      var rest := ReplaceTabPlus(s[1..]);
      assert forall k :: TabPlusAt(s[1..], k) ==> TabPlusAt(s, k + 1);
      ConsNoTabPlus(s[0], rest);
      [s[0]] + rest
  }

  /** A character put before text without `"\t+"` creates none, unless it is a tab before `+`. */
  lemma ConsNoTabPlus(c: char, rest: string)
    requires forall k :: !TabPlusAt(rest, k)
    requires c == '\t' ==> |rest| == 0 || rest[0] != '+'
    ensures forall k :: !TabPlusAt([c] + rest, k)
  {
    assert forall k :: 0 < k ==> (TabPlusAt([c] + rest, k) ==> TabPlusAt(rest, k - 1));
  }

  /** Text without `"\t+"` is left as it is. */
  lemma {:induction false} ReplaceTabPlusAbsent(s: string)
    requires forall k :: !TabPlusAt(s, k)
    ensures ReplaceTabPlus(s) == s
    decreases |s|
  {
    if |s| >= 2 {
      assert forall k :: TabPlusAt(s[1..], k) ==> TabPlusAt(s, k + 1);
      ReplaceTabPlusAbsent(s[1..]);
      assert [s[0]] + s[1..] == s;
    }
  }

  /**
    Text without `"\t+"` whose last character cannot pair with what follows
    passes through the replacement unchanged in front of the rest.
  */
  lemma {:induction false} ReplaceTabPlusKeepsPrefix(x: string, t: string)
    requires forall k :: !TabPlusAt(x, k)
    requires |x| > 0 && x[|x| - 1] == '\t' ==> |t| == 0 || t[0] != '+'
    ensures ReplaceTabPlus(x + t) == x + ReplaceTabPlus(t)
    decreases |x|
  {
    if |x| == 0 {
      assert x + t == t;
    } else {
      var s := x + t;
      NoTabPlusAtJoint(x, t);
      assert forall k :: TabPlusAt(x[1..], k) ==> TabPlusAt(x, k + 1);
      ReplaceTabPlusKeepsPrefix(x[1..], t);
      assert s[1..] == x[1..] + t;
      ReplaceTabPlusFirst(s);
      assert x + ReplaceTabPlus(t) == [x[0]] + (x[1..] + ReplaceTabPlus(t));
    }
  }

  /** Where `x` has no `"\t+"` and cannot pair with `t`, the joined text does not start with one. */
  lemma NoTabPlusAtJoint(x: string, t: string)
    requires |x| > 0
    requires forall k :: !TabPlusAt(x, k)
    requires x[|x| - 1] == '\t' ==> |t| == 0 || t[0] != '+'
    ensures !TabPlusAt(x + t, 0)
  {
    if |x| >= 2 {
      assert !TabPlusAt(x, 0);
    }
  }

  /** A first character that does not start `"\t+"` is copied. */
  lemma ReplaceTabPlusFirst(s: string)
    requires |s| > 0 && !TabPlusAt(s, 0)
    ensures ReplaceTabPlus(s) == [s[0]] + ReplaceTabPlus(s[1..])
  {
    if |s| < 2 {
      assert s[1..] == [] && s == [s[0]];
    }
  }

  /**
    Python defines `s.replace(old, new)` as `new.join(s.split(old))`: pieces
    joined by `"\t+"` come out joined by one space, each piece unchanged.
  */
  lemma {:induction false} ReplaceTabPlusJoin(pieces: seq<string>)
    requires forall i, k :: 0 <= i < |pieces| ==> !TabPlusAt(pieces[i], k)
    ensures ReplaceTabPlus(JoinWith("\t+", pieces)) == JoinWith(" ", pieces)
    decreases |pieces|
  {
    if |pieces| == 1 {
      ReplaceTabPlusAbsent(pieces[0]);
    } else if |pieces| > 1 {
      var x, u := pieces[0], JoinWith("\t+", pieces[1..]);
      ReplaceTabPlusJoin(pieces[1..]);
      assert ("\t+" + u)[2..] == u;
      assert TabPlusAt("\t+" + u, 0);
      ReplaceTabPlusKeepsPrefix(x, "\t+" + u);
      assert x + "\t+" + u == x + ("\t+" + u);
      assert x + " " + JoinWith(" ", pieces[1..]) == x + (" " + JoinWith(" ", pieces[1..]));
    }
  }

  /** `s.split("\t+")`: the pieces between non-overlapping occurrences, read left to right. */
  function SplitTabPlus(s: string): (pieces: seq<string>)
    ensures |pieces| > 0
    ensures JoinWith("\t+", pieces) == s
    ensures forall i, k :: 0 <= i < |pieces| ==> !TabPlusAt(pieces[i], k)
    ensures |s| > 0 && |pieces[0]| > 0 ==> pieces[0][0] == s[0]
    decreases |s|
  {
    if |s| < 2 then
      assert forall k :: !TabPlusAt(s, k);
      [s]
    else if TabPlusAt(s, 0) then
      var rest := SplitTabPlus(s[2..]);
      assert s == "\t+" + s[2..];
      [""] + rest
    else
      var rest := SplitTabPlus(s[1..]);
      ConsNoTabPlus(s[0], rest[0]);
      JoinCons("\t+", s[0], rest);
      assert s == [s[0]] + s[1..];
      [[s[0]] + rest[0]] + rest[1..]
  }

  /** Putting a character in front of the first piece puts it in front of the joined text. */
  lemma JoinCons(sep: string, c: char, pieces: seq<string>)
    requires |pieces| > 0
    ensures JoinWith(sep, [[c] + pieces[0]] + pieces[1..]) == [c] + JoinWith(sep, pieces)
  {
    var xs := [[c] + pieces[0]] + pieces[1..];
    if |pieces| > 1 {
      assert xs[1..] == pieces[1..];
      assert xs[0] + sep + JoinWith(sep, xs[1..]) == [c] + (pieces[0] + sep + JoinWith(sep, pieces[1..]));
    }
  }

  /** The replacement is the split on `"\t+"` joined by one space, for every line. */
  lemma ReplaceTabPlusIsSplitJoin(s: string)
    ensures ReplaceTabPlus(s) == JoinWith(" ", SplitTabPlus(s))
  {
    ReplaceTabPlusJoin(SplitTabPlus(s));
  }

  /** A character other than `+` added at the end is copied after the replaced text. */
  lemma {:induction false} ReplaceTabPlusAppend(s: string, c: char)
    requires c != '+'
    ensures ReplaceTabPlus(s + [c]) == ReplaceTabPlus(s) + [c]
    decreases |s|
  {
    var t := s + [c];
    if |s| == 1 {
      assert !TabPlusAt(t, 0);
      assert t[1..] == [c];
    } else if |s| >= 2 {
      if TabPlusAt(s, 0) {
        assert t[2..] == s[2..] + [c];
        ReplaceTabPlusAppend(s[2..], c);
      } else {
        assert t[1..] == s[1..] + [c];
        ReplaceTabPlusAppend(s[1..], c);
      }
    }
  }

  /** Replacing again changes nothing. */
  lemma ReplaceTabPlusIdempotent(s: string)
    ensures ReplaceTabPlus(ReplaceTabPlus(s)) == ReplaceTabPlus(s)
  {
    ReplaceTabPlusAbsent(ReplaceTabPlus(s));
  }

  /** The replacement keeps a final newline. */
  lemma {:induction false} ReplaceTabPlusKeepsNewline(s: string)
    requires |s| > 0 && s[|s| - 1] == '\n'
    ensures |ReplaceTabPlus(s)| > 0 && ReplaceTabPlus(s)[|ReplaceTabPlus(s)| - 1] == '\n'
    decreases |s|
  {
    if |s| >= 2 {
      if TabPlusAt(s, 0) {
        if |s| > 2 {
          ReplaceTabPlusKeepsNewline(s[2..]);
        }
      } else {
        ReplaceTabPlusKeepsNewline(s[1..]);
      }
    }
  }

  /** The characters `rstrip(' .')` removes. */
  predicate IsSpaceOrDot(c: char) { c == ' ' || c == '.' }

  /**
    The line as the loop tests and writes it: `"\t+"` replaced, trailing
    spaces and dots trimmed, then a newline appended.
  */
  function PrepareLine(line: string): (p: string)
    ensures |p| > 0 && p[|p| - 1] == '\n'
  {
    TrimRight(ReplaceTabPlus(line), IsSpaceOrDot) + "\n"
  }

  /**
    A line read with its newline keeps it, so the trim removes nothing and
    the line ends up with a second newline; trailing spaces and dots before
    that newline stay. Only a last line without a newline is trimmed.
  */
  lemma PrepareTerminatedLine(line: string)
    requires |line| > 0 && line[|line| - 1] == '\n'
    ensures PrepareLine(line) == ReplaceTabPlus(line) + "\n"
    ensures (forall k :: !TabPlusAt(line, k)) ==> PrepareLine(line) == line + "\n"
  {
    var r := ReplaceTabPlus(line);
    ReplaceTabPlusKeepsNewline(line);
    assert !IsSpaceOrDot(r[|r| - 1]);
    if forall k :: !TabPlusAt(line, k) {
      ReplaceTabPlusAbsent(line);
    }
    assert TrimRight(r, IsSpaceOrDot) == r;
  }

  /**
    On a last line without a newline the trim does its work: a trailing
    space or dot is dropped.
  */
  lemma PrepareLastLine(line: string, c: char)
    requires IsSpaceOrDot(c)
    ensures PrepareLine(line + [c]) == PrepareLine(line)
  {
    var r := ReplaceTabPlus(line);
    ReplaceTabPlusAppend(line, c);
    assert (r + [c])[..|r|] == r;
  }

  // ---------------------------------------------------------------------
  // What the loop decides about one line.

  /** Why a line that is not passed through writes nothing. */
  datatype DropReason = Loopback6 | TooFewWords | Excluded | Unparsable | Whitelisted

  /** The loop's verdict on one line, before the seen set is consulted. */
  datatype Verdict =
    | PassThrough(text: string)
    | Drop(reason: DropReason)
    | Candidate(hostname: string, rule: string)

  /** The prepared line starts with `#` or whitespace. */
  predicate PassesThrough(p: string) {
    |p| > 0 && (p[0] == '#' || IsSpace(p[0]))
  }

  /** The tests of one loop iteration, in the order the source makes them. */
  function Classify(line: string, cfg: Config): (v: Verdict)
    ensures v.PassThrough? <==> PassesThrough(PrepareLine(line))
    ensures v.PassThrough? ==> v.text == PrepareLine(line)
    ensures v.Candidate? ==> IsHostname(v.hostname) && cfg.targetIp + " " + v.hostname <= v.rule
    ensures v.Candidate? ==>
      NormalizeRule(StripRule(PrepareLine(line)), cfg.targetIp, cfg.keepDomainComments) == Some(Normalized(v.hostname, v.rule))
  {
    ClassifyPrepared(PrepareLine(line), cfg)
  }

  /** The tests made on the prepared line `p`. */
  function ClassifyPrepared(p: string, cfg: Config): (v: Verdict)
    requires |p| > 0
    ensures v.PassThrough? <==> PassesThrough(p)
    ensures v.PassThrough? ==> v.text == p
    ensures v.Candidate? ==> IsHostname(v.hostname) && cfg.targetIp + " " + v.hostname <= v.rule
    ensures v.Candidate? ==>
      NormalizeRule(StripRule(p), cfg.targetIp, cfg.keepDomainComments) == Some(Normalized(v.hostname, v.rule))
  {
    if p[0] == '#' || IsSpace(p[0]) then PassThrough(p)
    else if Contains(p, "::1") then Drop(Loopback6)
    else
      var strippedRule := StripRule(p);
      if strippedRule == "" then Drop(TooFewWords)
      else if MatchesExclusions(strippedRule, cfg.exclusionRegexes) then Drop(Excluded)
      else match NormalizeRule(strippedRule, cfg.targetIp, cfg.keepDomainComments)
        case None => Drop(Unparsable)
        case Some(n) =>
          if OnWhitelist(p, cfg.exclusions) then Drop(Whitelisted)
          else Candidate(n.hostname, n.rule)
  }

  /**
    The rule a candidate offers, read off the line: the target address, the
    lower-cased host-name prefix of the second word, and the rest of that
    word as a comment when it is non-empty and comments are kept.
  */
  lemma CandidateRule(p: string, cfg: Config)
    requires |p| > 0 && ClassifyPrepared(p, cfg).Candidate?
    ensures |Split(p)| >= 2
    ensures var v, t1 := ClassifyPrepared(p, cfg), Split(p)[1];
      var k := HostPrefixLength(t1);
      && v.hostname == Lower(t1[..k])
      && (k < |t1| && cfg.keepDomainComments ==>
            v.rule == cfg.targetIp + " " + Lower(t1[..k]) + " #" + t1[k..] + "\n")
      && (!(k < |t1| && cfg.keepDomainComments) ==>
            v.rule == cfg.targetIp + " " + Lower(t1[..k]) + "\n")
  {
    var v := ClassifyPrepared(p, cfg);
    var r := NormalizeRule(StripRule(p), cfg.targetIp, cfg.keepDomainComments);
    assert r == Some(Normalized(v.hostname, v.rule));
    NormalizeStrippedRule(p, cfg.targetIp, cfg.keepDomainComments);
  }

  /**
    A line that is not passed through offers a rule exactly when it has no
    `::1`, has two words, no exclusion is found in the second word, the first
    word is a dotted quad, the second starts with a host-name character, and
    no whitelist entry occurs in the line. The host name is then the
    lower-cased host-name prefix of the second word.
  */
  lemma {:induction false} CandidateIff(p: string, cfg: Config)
    requires |p| > 0 && !PassesThrough(p)
    ensures ClassifyPrepared(p, cfg).Candidate? <==>
        && !Contains(p, "::1")
        && |Split(p)| >= 2
        && !(exists k :: 0 <= k < |cfg.exclusionRegexes| && RegexSearch(Split(p)[1], cfg.exclusionRegexes[k].domain))
        && IsDottedQuad(Split(p)[0]) && IsHostChar(Split(p)[1][0])
        && !(exists e :: e in cfg.exclusions && Contains(p, e))
    ensures ClassifyPrepared(p, cfg).Candidate? ==>
        ClassifyPrepared(p, cfg).hostname == Lower(Split(p)[1][..HostPrefixLength(Split(p)[1])])
  {
    var v := ClassifyPrepared(p, cfg);
    if Contains(p, "::1") {
      assert v == Drop(Loopback6);
    } else if |Split(p)| < 2 {
      assert v == Drop(TooFewWords);
    } else {
      var strippedRule := StripRule(p);
      var t1 := Split(p)[1];
      assert Split(strippedRule)[1] == t1;
      if MatchesExclusions(strippedRule, cfg.exclusionRegexes) {
        assert v == Drop(Excluded);
      } else {
        NormalizeStrippedRule(p, cfg.targetIp, cfg.keepDomainComments);
        var r := NormalizeRule(strippedRule, cfg.targetIp, cfg.keepDomainComments);
        if r.Some? && !OnWhitelist(p, cfg.exclusions) {
          assert v == Candidate(r.value.hostname, r.value.rule);
          assert r.value.hostname == Lower(t1[..HostPrefixLength(t1)]);
        }
      }
    }
  }

  // ---------------------------------------------------------------------
  // The fold. It depends on the lines only through their verdicts.

  /** The verdict on every line, in order. */
  function Verdicts(lines: seq<string>, cfg: Config): (vs: seq<Verdict>)
    ensures |vs| == |lines|
    decreases |lines|
  {
    if |lines| == 0 then []
    else Verdicts(lines[..|lines| - 1], cfg) + [Classify(lines[|lines| - 1], cfg)]
  }

  /** Verdict `i` is the verdict on line `i`. */
  lemma {:induction false} VerdictsAt(lines: seq<string>, cfg: Config, i: nat)
    requires i < |lines|
    ensures Verdicts(lines, cfg)[i] == Classify(lines[i], cfg)
    decreases |lines|
  {
    if i < |lines| - 1 {
      VerdictsAt(lines[..|lines| - 1], cfg, i);
      assert lines[..|lines| - 1][i] == lines[i];
    }
  }

  /** One piece of output: a passed-through line, or a rule for a host name. */
  datatype Emitted = Verbatim(text: string) | Rule(hostname: string, text: string)

  /** What the loop carries from one line to the next. */
  datatype State = State(out: seq<Emitted>, hostnames: set<string>, numberOfRules: int)

  /** The state before the first line. */
  function Start(numberOfRules: int): State {
    State([], Reserved, numberOfRules)
  }

  /** One iteration: pass through, drop, or write the rule of an unseen host name. */
  function Step(st: State, v: Verdict): (next: State)
    ensures st.hostnames <= next.hostnames
    ensures st.out <= next.out
  {
    match v
      case PassThrough(text) => st.(out := st.out + [Verbatim(text)])
      case Drop(_) => st
      case Candidate(h, rule) =>
        if h in st.hostnames then st
        else State(st.out + [Rule(h, rule)], st.hostnames + {h}, st.numberOfRules + 1)
  }

  /** A pass-through line is written as prepared and changes nothing else. */
  lemma StepPassThrough(st: State, line: string, cfg: Config)
    requires PassesThrough(PrepareLine(line))
    ensures Step(st, Classify(line, cfg)) == st.(out := st.out + [Verbatim(PrepareLine(line))])
  {
  }

  /** The loop over the verdicts `vs`, from `start`. */
  function Fold(vs: seq<Verdict>, start: State): (st: State)
    ensures start.hostnames <= st.hostnames
    ensures start.out <= st.out
    decreases |vs|
  {
    if |vs| == 0 then start
    else Step(Fold(vs[..|vs| - 1], start), vs[|vs| - 1])
  }

  /** The text of the output. */
  function Written(out: seq<Emitted>): string
    decreases |out|
  {
    if |out| == 0 then "" else Written(out[..|out| - 1]) + out[|out| - 1].text
  }

  /** How many rules the output holds. */
  function RuleCount(out: seq<Emitted>): nat
    decreases |out|
  {
    if |out| == 0 then 0
    else RuleCount(out[..|out| - 1]) + (if out[|out| - 1].Rule? then 1 else 0)
  }

  // ---------------------------------------------------------------------
  // The reference definition.

  /** The host name a verdict offers, if any. */
  function Claim(v: Verdict): set<string> {
    if v.Candidate? then {v.hostname} else {}
  }

  /** The host names offered by any of the verdicts. */
  function Claimed(vs: seq<Verdict>): set<string>
    decreases |vs|
  {
    if |vs| == 0 then {} else Claimed(vs[..|vs| - 1]) + Claim(vs[|vs| - 1])
  }

  /** A host name is claimed exactly when some verdict offers it. */
  lemma {:induction false} ClaimedIff(vs: seq<Verdict>, h: string)
    ensures h in Claimed(vs) <==> exists i :: 0 <= i < |vs| && vs[i].Candidate? && vs[i].hostname == h
    decreases |vs|
  {
    if |vs| > 0 {
      var pre := vs[..|vs| - 1];
      ClaimedIff(pre, h);
      assert forall i :: 0 <= i < |pre| ==> pre[i] == vs[i];
    }
  }

  /** Verdict `i` offers the rule `r` for `h`, `h` is not reserved, and no earlier verdict offered `h`. */
  predicate FirstClaimAt(vs: seq<Verdict>, i: int, h: string, r: string) {
    && 0 <= i < |vs|
    && vs[i] == Candidate(h, r)
    && h !in Reserved
    && h !in Claimed(vs[..i])
  }

  /** What verdict `i` contributes to the output. */
  function EmittedAt(vs: seq<Verdict>, i: nat): seq<Emitted>
    requires i < |vs|
  {
    match vs[i]
      case PassThrough(text) => [Verbatim(text)]
      case Drop(_) => []
      case Candidate(h, r) => if FirstClaimAt(vs, i, h, r) then [Rule(h, r)] else []
  }

  /** The output, verdict by verdict. */
  function Expected(vs: seq<Verdict>): seq<Emitted>
    decreases |vs|
  {
    if |vs| == 0 then [] else Expected(vs[..|vs| - 1]) + EmittedAt(vs, |vs| - 1)
  }

  /**
    The loop computes the reference output; its seen set is the reserved
    names plus every name offered, and its count grows by one per rule.
  */
  lemma {:induction false} FoldIsExpected(vs: seq<Verdict>, numberOfRules: int)
    ensures Fold(vs, Start(numberOfRules)).out == Expected(vs)
    ensures Fold(vs, Start(numberOfRules)).hostnames == Reserved + Claimed(vs)
    ensures Fold(vs, Start(numberOfRules)).numberOfRules == numberOfRules + RuleCount(Expected(vs))
    decreases |vs|
  {
    if |vs| > 0 {
      var n := |vs| - 1;
      FoldIsExpected(vs[..n], numberOfRules);
      ExpectedStep(vs, Fold(vs[..n], Start(numberOfRules)), numberOfRules);
    }
  }

  /** One more verdict keeps the loop's state equal to the reference. */
  lemma ExpectedStep(vs: seq<Verdict>, st: State, numberOfRules: int)
    requires |vs| > 0
    requires st.out == Expected(vs[..|vs| - 1])
    requires st.hostnames == Reserved + Claimed(vs[..|vs| - 1])
    requires st.numberOfRules == numberOfRules + RuleCount(Expected(vs[..|vs| - 1]))
    ensures Step(st, vs[|vs| - 1]).out == Expected(vs)
    ensures Step(st, vs[|vs| - 1]).hostnames == Reserved + Claimed(vs)
    ensures Step(st, vs[|vs| - 1]).numberOfRules == numberOfRules + RuleCount(Expected(vs))
  {
    var n := |vs| - 1;
    var pre := vs[..n];
    assert Expected(vs) == Expected(pre) + EmittedAt(vs, n);
    assert Claimed(vs) == Claimed(pre) + Claim(vs[n]);
    StepHostnames(st, vs[n]);
    UnionStep(st.hostnames, Reserved, Claimed(pre), Claim(vs[n]));
    match vs[n]
      case PassThrough(text) =>
        RuleCountAppend(Expected(pre), Verbatim(text));
      case Drop(_) =>
        assert Expected(pre) + [] == Expected(pre);
      case Candidate(h, r) =>
        if FirstClaimAt(vs, n, h, r) {
          RuleCountAppend(Expected(pre), Rule(h, r));
        } else {
          assert h in st.hostnames;
          assert Expected(pre) + [] == Expected(pre);
        }
  }

  /** One iteration adds to the seen set exactly the host name the verdict offers. */
  lemma StepHostnames(st: State, v: Verdict)
    ensures Step(st, v).hostnames == st.hostnames + Claim(v)
  {
  }

  /** Adding to one part of a union adds to the union. */
  lemma UnionStep(all: set<string>, base: set<string>, part: set<string>, more: set<string>)
    requires all == base + part
    ensures all + more == base + (part + more)
  {
  }

  /** A rule appended to the output adds one to its count; other text adds none. */
  lemma RuleCountAppend(out: seq<Emitted>, e: Emitted)
    ensures RuleCount(out + [e]) == RuleCount(out) + (if e.Rule? then 1 else 0)
  {
    assert (out + [e])[..|out|] == out;
  }

  /**
    A rule is written exactly for a verdict that is the first to offer a host
    name outside the reserved ones.
  */
  lemma {:induction false} FirstOccurrenceWins(vs: seq<Verdict>, h: string, r: string)
    ensures Rule(h, r) in Expected(vs) <==> exists i :: FirstClaimAt(vs, i, h, r)
    decreases |vs|
  {
    if |vs| > 0 {
      var n := |vs| - 1;
      var pre := vs[..n];
      FirstOccurrenceWins(pre, h, r);
      forall i | 0 <= i < n
        ensures FirstClaimAt(pre, i, h, r) <==> FirstClaimAt(vs, i, h, r)
      {
        assert pre[..i] == vs[..i];
      }
    }
  }

  /** No host name has two rules, and no reserved name has one. */
  predicate RulesDistinct(out: seq<Emitted>) {
    && (forall i :: 0 <= i < |out| && out[i].Rule? ==> out[i].hostname !in Reserved)
    && (forall i, j :: 0 <= i < j < |out| && out[i].Rule? && out[j].Rule? ==> out[i].hostname != out[j].hostname)
  }

  /** Every rule's host name was offered by some verdict. */
  predicate RulesClaimed(out: seq<Emitted>, claimed: set<string>) {
    forall i :: 0 <= i < |out| && out[i].Rule? ==> out[i].hostname in claimed
  }

  /** The output never repeats a host name and never writes a reserved one. */
  lemma {:induction false} ExpectedRulesDistinct(vs: seq<Verdict>)
    ensures RulesDistinct(Expected(vs))
    ensures RulesClaimed(Expected(vs), Claimed(vs))
    decreases |vs|
  {
    if |vs| > 0 {
      ExpectedRulesDistinct(vs[..|vs| - 1]);
    }
  }

  /** Reading a prefix of the lines gives a prefix of the output and a smaller seen set. */
  lemma {:induction false} FoldGrows(vs: seq<Verdict>, m: nat, start: State)
    requires m <= |vs|
    ensures Fold(vs[..m], start).out <= Fold(vs, start).out
    ensures Fold(vs[..m], start).hostnames <= Fold(vs, start).hostnames
    decreases |vs|
  {
    if m < |vs| {
      var n := |vs| - 1;
      assert vs[..n][..m] == vs[..m];
      FoldGrows(vs[..n], m, start);
    } else {
      assert vs[..m] == vs;
    }
  }

  // ---------------------------------------------------------------------
  // The loop as a method.

  /** The loop over one more line takes one more step. */
  lemma FoldNext(lines: seq<string>, cfg: Config, i: nat, start: State)
    requires i < |lines|
    ensures Fold(Verdicts(lines[..i + 1], cfg), start)
      == Step(Fold(Verdicts(lines[..i], cfg), start), Classify(lines[i], cfg))
  {
    assert lines[..i + 1][..i] == lines[..i];
    var vs := Verdicts(lines[..i + 1], cfg);
    assert vs[..|vs| - 1] == Verdicts(lines[..i], cfg);
  }

  /** Writing one more piece appends its text. */
  lemma WrittenAppend(out: seq<Emitted>, x: Emitted)
    ensures Written(out + [x]) == Written(out) + x.text
  {
    assert (out + [x])[..|out|] == out;
  }

  /** The whitelist file's entries added to the configured exclusions. */
  function WithWhitelist(cfg: Config, whitelist: Option<seq<string>>): (c: Config)
    ensures |cfg.exclusions| <= |c.exclusions| && c.exclusions[..|cfg.exclusions|] == cfg.exclusions
    ensures whitelist.Some? ==> c.exclusions[|cfg.exclusions|..] == ParseWhitelist(whitelist.value)
    ensures whitelist.None? ==> c == cfg
    ensures c.targetIp == cfg.targetIp && c.keepDomainComments == cfg.keepDomainComments
    ensures c.exclusionRegexes == cfg.exclusionRegexes
  {
    match whitelist
      case None => cfg
      case Some(wl) => cfg.(exclusions := cfg.exclusions + ParseWhitelist(wl))
  }

  /**
    The body of the loop for a line with verdict `v`: a pass-through line is
    written, a candidate is written only for a host name not seen yet.
  */
  method Absorb(out: seq<Emitted>, hostnames: set<string>, numberOfRules: int, text: string, v: Verdict)
    returns (out': seq<Emitted>, hostnames': set<string>, numberOfRules': int, text': string)
    requires text == Written(out)
    ensures State(out', hostnames', numberOfRules') == Step(State(out, hostnames, numberOfRules), v)
    ensures text' == Written(out')
  {
    out', hostnames', numberOfRules', text' := out, hostnames, numberOfRules, text;
    match v {
      case PassThrough(line) =>
        WrittenAppend(out, Verbatim(line));
        out' := out + [Verbatim(line)];
        text' := text + line;
      case Drop(_) =>
      case Candidate(h, rule) =>
        if h !in hostnames {
          WrittenAppend(out, Rule(h, rule));
          out' := out + [Rule(h, rule)];
          text' := text + rule;
          hostnames' := hostnames + {h};
          numberOfRules' := numberOfRules + 1;
        }
    }
  }

  /**
    `removeDupsAndExcl`: takes the whitelist file's lines (absent when there
    is no such file) and the merged text, and returns the text written to the
    hosts file body together with the new rule count.
  */
  method RemoveDupsAndExcl(mergeText: string, whitelist: Option<seq<string>>, cfg: Config, numberOfRules: int)
    returns (finalText: string, newNumberOfRules: int)
    ensures var vs := Verdicts(ReadLines(mergeText), WithWhitelist(cfg, whitelist));
      finalText == Written(Expected(vs)) && newNumberOfRules == numberOfRules + RuleCount(Expected(vs))
  {
    var c := WithWhitelist(cfg, whitelist);
    var lines := ReadLines(mergeText);
    var hostnames := Reserved;
    var out: seq<Emitted> := [];
    finalText := "";
    newNumberOfRules := numberOfRules;
    var i := 0;
    while i < |lines|
      invariant i <= |lines|
      invariant Fold(Verdicts(lines[..i], c), Start(numberOfRules)) == State(out, hostnames, newNumberOfRules)
      invariant finalText == Written(out)
    {
      var v := Classify(lines[i], c);
      FoldNext(lines, c, i, Start(numberOfRules));
      out, hostnames, newNumberOfRules, finalText := Absorb(out, hostnames, newNumberOfRules, finalText, v);
      i := i + 1;
    }
    assert lines[..i] == lines;
    FoldIsExpected(Verdicts(lines, c), numberOfRules);
  }
}
