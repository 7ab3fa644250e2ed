/**
  The two kinds of exclusion of updateHostsFile.py.

  A domain the user chooses is compiled by `excludeDomain` into the regular
  expression `([a-zA-Z\d-]+\.){0,}` followed by the domain, unescaped, and
  `matchesExclusions` searches for it anywhere in the second word of a
  stripped rule. A whitelist entry is a trimmed line of the whitelist file,
  tested as a plain substring of the whole input line.

  `isValidDomainFormat`, which screens the domains the user types in, is
  here too.
*/
module Exclusions {
  import opened Text

  /** The label prefix `excludeDomain` puts in front of every domain. */
  const ExclusionPattern: string := "([a-zA-Z\\d-]+\\.){0,}"

  /** A compiled exclusion: the regular expression `ExclusionPattern + domain`. */
  datatype ExclusionRegex = ExclusionRegex(domain: string) {
    /** The source text of the compiled expression. */
    function Pattern(): string { ExclusionPattern + domain }
  }

  /**
    The characters an exclusion domain is made of. Of the regular-expression
    metacharacters only `.` can appear, and it is left unescaped.
  */
  predicate IsDomainChar(c: char) { IsLetter(c) || IsDigit(c) || c == '.' || c == '-' }

  /** `excludeDomain`: compile one more exclusion and append it. */
  function ExcludeDomain(regexes: seq<ExclusionRegex>, domain: string): (r: seq<ExclusionRegex>)
    requires forall k :: 0 <= k < |domain| ==> IsDomainChar(domain[k])
    ensures |r| == |regexes| + 1 && r[..|regexes|] == regexes
    ensures r[|regexes|].Pattern() == ExclusionPattern + domain
  {
    regexes + [ExclusionRegex(domain)]
  }

  /**
    What one character of the domain matches when read as part of a regular
    expression: `.` is any character but a newline, and every other
    character allowed in a domain (`[A-Za-z0-9-]`) stands for itself.
  */
  predicate CharMatches(pc: char, c: char) {
    if pc == '.' then c != '\n' else c == pc
  }

  /** The domain, read as a pattern, matches `word` starting at offset `j`. */
  predicate DomainAt(word: string, domain: string, j: int) {
    && 0 <= j && j + |domain| <= |word|
    && forall k :: 0 <= k < |domain| ==> CharMatches(domain[k], word[j + k])
  }

  /** Tries the domain at every offset from `j` on, as `re.search` does. */
  function SearchFrom(word: string, domain: string, j: nat): (found: bool)
    ensures found <==> exists i :: j <= i && DomainAt(word, domain, i)
    decreases |word| - j
  {
    if j + |domain| > |word| then false
    else DomainAt(word, domain, j) || SearchFrom(word, domain, j + 1)
  }

  // ---------------------------------------------------------------------
  // The regular expression itself, label prefix included.

  /** `[a-zA-Z\d-]` */
  predicate IsLabelChar(c: char) { IsLetter(c) || IsDigit(c) || c == '-' }

  /**
    `s` is `([a-zA-Z\d-]+\.)*` in full: labels, each followed by a dot. A
    label cannot contain a dot, so each one ends at the first dot.
  */
  ghost predicate IsLabelPrefix(s: string)
    decreases |s|
  {
    s == [] ||
    var k := Span(s, 0, IsLabelChar);
    0 < k < |s| && s[k] == '.' && IsLabelPrefix(s[k + 1..])
  }

  /** The whole expression matches `word[i..]`: labels from `i` to `j`, then the domain. */
  ghost predicate ExclusionMatchAt(word: string, domain: string, i: int, j: int) {
    0 <= i <= j <= |word| && IsLabelPrefix(word[i..j]) && DomainAt(word, domain, j)
  }

  /** `re.search` of `ExclusionPattern + domain` in `word` finds a match. */
  ghost predicate RegexSearch(word: string, domain: string) {
    exists i, j :: ExclusionMatchAt(word, domain, i, j)
  }

  /**
    Because the label prefix may repeat zero times, searching for the whole
    expression is the same as searching for the domain alone.
  */
  lemma RegexSearchIsDomainSearch(word: string, domain: string)
    ensures RegexSearch(word, domain) <==> SearchFrom(word, domain, 0)
  {
    if SearchFrom(word, domain, 0) {
      var j :| 0 <= j && DomainAt(word, domain, j);
      assert word[j..j] == [];
      assert ExclusionMatchAt(word, domain, j, j);
    }
  }

  /** Searches the exclusions in order; true as soon as one is found. */
  function FindExclusion(word: string, regexes: seq<ExclusionRegex>): (found: bool)
    ensures found <==> exists k :: 0 <= k < |regexes| && SearchFrom(word, regexes[k].domain, 0)
    decreases |regexes|
  {
    if |regexes| == 0 then false
    else if SearchFrom(word, regexes[0].domain, 0) then true
    else
      var rest := FindExclusion(word, regexes[1..]);
      assert forall k :: 1 <= k < |regexes| ==> regexes[k] == regexes[1..][k - 1];
      rest
  }

  /**
    `matchesExclusions`: some compiled exclusion is found in the second word
    of the stripped rule. The source indexes that word without a check, so a
    rule of fewer than two words is not allowed here.
  */
  function MatchesExclusions(strippedRule: string, regexes: seq<ExclusionRegex>): (found: bool)
    requires |Split(strippedRule)| >= 2
    ensures found <==> exists k :: 0 <= k < |regexes| && RegexSearch(Split(strippedRule)[1], regexes[k].domain)
  {
    var strippedDomain := Split(strippedRule)[1];
    forall k | 0 <= k < |regexes| {
      RegexSearchIsDomainSearch(strippedDomain, regexes[k].domain);
    }
    FindExclusion(strippedDomain, regexes)
  }

  /** A word that contains the domain literally is excluded by it. */
  lemma LiteralOccurrenceMatches(word: string, domain: string)
    requires Contains(word, domain)
    ensures RegexSearch(word, domain)
  {
    var i :| 0 <= i <= |word| - |domain| && OccursAt(word, domain, i);
    forall k | 0 <= k < |domain|
      ensures CharMatches(domain[k], word[i + k])
    {
      assert word[i..i + |domain|][k] == word[i + k];
    }
    assert word[i..i] == [];
    assert ExclusionMatchAt(word, domain, i, i);
  }

  /**
    After `excludeDomain(d)`, every stripped rule whose second word contains
    `d` is excluded, and every rule excluded before still is.
  */
  lemma ExcludeDomainExcludes(strippedRule: string, regexes: seq<ExclusionRegex>, domain: string)
    requires |Split(strippedRule)| >= 2
    requires forall k :: 0 <= k < |domain| ==> IsDomainChar(domain[k])
    ensures Contains(Split(strippedRule)[1], domain) ==> MatchesExclusions(strippedRule, ExcludeDomain(regexes, domain))
    ensures MatchesExclusions(strippedRule, regexes) ==> MatchesExclusions(strippedRule, ExcludeDomain(regexes, domain))
  {
    var r := ExcludeDomain(regexes, domain);
    if Contains(Split(strippedRule)[1], domain) {
      LiteralOccurrenceMatches(Split(strippedRule)[1], domain);
      assert r[|regexes|].domain == domain;
    }
    if MatchesExclusions(strippedRule, regexes) {
      var k :| 0 <= k < |regexes| && RegexSearch(Split(strippedRule)[1], regexes[k].domain);
      assert r[k] == regexes[k];
    }
  }

  /**
    The dots of an exclusion domain are not escaped: excluding `a.b` also
    excludes a word holding `a`, any one character but a newline, then `b`.
  */
  lemma DotMatchesAnyCharacter(word: string, a: string, b: string, i: nat)
    requires forall k :: 0 <= k < |a| ==> a[k] != '.'
    requires forall k :: 0 <= k < |b| ==> b[k] != '.'
    requires i + |a| + 1 + |b| <= |word|
    requires word[i..i + |a|] == a && word[i + |a|] != '\n' && word[i + |a| + 1..i + |a| + 1 + |b|] == b
    ensures RegexSearch(word, a + "." + b)
  {
    var d := a + "." + b;
    forall k | 0 <= k < |d|
      ensures CharMatches(d[k], word[i + k])
    {
      if k < |a| {
        assert word[i..i + |a|][k] == word[i + k];
      } else if k > |a| {
        assert d[k] == b[k - |a| - 1];
        assert word[i + |a| + 1..i + |a| + 1 + |b|][k - |a| - 1] == word[i + k];
      }
    }
    assert word[i..i] == [];
    assert ExclusionMatchAt(word, d, i, i);
  }

  // ---------------------------------------------------------------------
  // The whitelist.

  /** The characters `strip(" \t\n\r")` removes. */
  predicate IsWhitelistBlank(c: char) { c == ' ' || c == '\t' || c == '\n' || c == '\r' }

  /** A trimmed whitelist line is kept when it is non-empty and not a `#` comment. */
  predicate IsWhitelistEntry(e: string) { e != "" && e[0] != '#' }

  /** The whitelist entries of the lines of the whitelist file, in file order. */
  function ParseWhitelist(lines: seq<string>): (entries: seq<string>)
    ensures forall e :: e in entries <==>
      exists l :: l in lines && Strip(l, IsWhitelistBlank) == e && IsWhitelistEntry(e)
    decreases |lines|
  {
    if |lines| == 0 then []
    else
      var line := Strip(lines[0], IsWhitelistBlank);
      var rest := ParseWhitelist(lines[1..]);
      WhitelistLinesCons(lines);
      if IsWhitelistEntry(line) then [line] + rest else rest
  }

  /** Every entry is non-empty, no comment, and already trimmed. */
  lemma WhitelistEntriesAreTrimmed(lines: seq<string>, e: string)
    requires e in ParseWhitelist(lines)
    ensures IsWhitelistEntry(e)
    ensures Strip(e, IsWhitelistBlank) == e
  {
    var l :| l in lines && Strip(l, IsWhitelistBlank) == e && IsWhitelistEntry(e);
    StripOfStripped(l, IsWhitelistBlank);
  }

  /** An entry comes from the first line or from one of the others. */
  lemma WhitelistLinesCons(lines: seq<string>)
    requires |lines| > 0
    ensures forall e ::
      (exists l :: l in lines && Strip(l, IsWhitelistBlank) == e && IsWhitelistEntry(e))
      <==> (Strip(lines[0], IsWhitelistBlank) == e && IsWhitelistEntry(e))
           || (exists l :: l in lines[1..] && Strip(l, IsWhitelistBlank) == e && IsWhitelistEntry(e))
  {
    assert forall l :: l in lines <==> l == lines[0] || l in lines[1..];
  }

  /** The whitelist test of the merge loop: some entry occurs anywhere in the line. */
  function OnWhitelist(line: string, exclusions: seq<string>): (hit: bool)
    ensures hit <==> exists e :: e in exclusions && Contains(line, e)
    decreases |exclusions|
  {
    if |exclusions| == 0 then false
    else if Contains(line, exclusions[0]) then true
    else
      var rest := OnWhitelist(line, exclusions[1..]);
      assert forall e :: e in exclusions <==> e == exclusions[0] || e in exclusions[1..];
      rest
  }

  // ---------------------------------------------------------------------
  // Domains typed in by the user.

  /** `domain` starts with `www`, `n` digits and a dot. */
  ghost predicate WwwDigitsDot(domain: string, n: int) {
    && 0 <= n <= 3
    && 4 + n <= |domain|
    && domain[..3] == "www"
    && (forall k :: 3 <= k < 3 + n ==> IsDigit(domain[k]))
    && domain[3 + n] == '.'
  }

  /** `re.compile("www\d{0,3}[.]|https?").match(domain)`, scanned by hand. */
  function MatchesWebPrefix(domain: string): (m: bool)
    ensures m <==> (exists n :: WwwDigitsDot(domain, n)) || "http" <= domain
  {
    WwwPrefixIff(domain);
    ScansWwwPrefix(domain) || "http" <= domain
  }

  /** `www\d{0,3}[.]` matched at the start: `www`, the run of digits after it, then a dot. */
  function ScansWwwPrefix(domain: string): bool {
    "www" <= domain && (
      var j := Span(domain, 3, IsDigit);
      j <= 6 && j < |domain| && domain[j] == '.')
  }

  /** The digit run may stop only at the dot, so one scan decides the match. */
  lemma WwwPrefixIff(domain: string)
    ensures ScansWwwPrefix(domain) <==> exists n :: WwwDigitsDot(domain, n)
  {
    if ScansWwwPrefix(domain) {
      assert WwwDigitsDot(domain, Span(domain, 3, IsDigit) - 3);
    }
    if exists n :: WwwDigitsDot(domain, n) {
      var n :| WwwDigitsDot(domain, n);
      SpanIsUnique(domain, 3, 3 + n, IsDigit);
    }
  }

  /**
    `isValidDomainFormat`: false for the empty string and for anything that
    starts like `www.`, `www12.` or `http`; true otherwise. (The source also
    prints why it refuses.)
  */
  function IsValidDomainFormat(domain: string): (ok: bool)
    ensures !ok <==> domain == "" || (exists n :: WwwDigitsDot(domain, n)) || "http" <= domain
  {
    if domain == "" then false
    else if MatchesWebPrefix(domain) then false
    else true
  }
}
