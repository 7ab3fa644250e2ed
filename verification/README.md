# A Dafny model of the hosts-file merge of StevenBlack/hosts

`updateHostsFile.py` builds one unified hosts file from many source lists.
It merges the source files, drops duplicate and excluded host names,
rewrites every rule to point at a target address, and puts a generated
header on top. This project models the logic at the centre of that script
as pure Dafny functions, and proves the properties that logic promises:

- **Rule lines.** `stripRule` keeps the first two words of a line.
  `normalizeRule` recognises `<dotted quad> <host name>[suffix]` and rewrites
  it for the target address (module `Rules`). The regular expression of
  `normalizeRule` is matched by a hand-written scanner (`MatchRule`). That
  scanner is proved equal to an independent, existential description of the
  text the pattern accepts (`HasRuleShape`).
- **Exclusions.** The user's excluded domains are compiled as
  `([a-zA-Z\d-]+\.){0,}` + domain and searched for in a rule's second word.
  The whitelist file's entries are searched for in the whole line. Domains
  typed in by the user are validated (module `Exclusions`).
- **The merge loop** of `removeDupsAndExcl` (module `Merge`). It is a left
  fold over the lines of the merged file. The fold carries the text written
  so far, the set of host names already seen, and the rule count. `Fold` is
  the loop as written. `Expected` is an independent reference: every
  pass-through line, plus the rule of the first acceptable line for each
  host name that is not reserved. The two are proved equal.
  `RemoveDupsAndExcl` is the loop as an imperative method.
- **The header** written by `writeOpeningHeader` (module `Header`). This
  includes the `"{:,}"` formatting of the rule count, with a round-trip
  proof.
- **Smaller decisions:**
  - the extension selection, a sorted set intersection (module `Settings`);
  - the readme key (module `Settings`);
  - the reply logic of `query_yes_no` (module `Prompts`).

Strings are `seq<char>`. Character classes follow Python 3 on ASCII text:

- whitespace is the `str.isspace` set, which is also what `\s` matches in
  Python 3;
- `\d` and `\w` are ASCII only;
- `lower()` changes `A`–`Z` only.

The clock, the platform test, the machine name, the output sub-folder and
the contents of optional files are parameters of the model.

## Modelling note: the trim on line 352

The loop trims each line with `line.rstrip(' .') + "\n"`. The comment on
line 351 (Issue #271) describes this as trimming trailing whitespace and
periods. The model follows the code as written. `readlines()` keeps each
line's newline, and a newline is neither a space nor a dot. So for every
line except an unterminated last one, the trim removes nothing and a second
newline is appended.

- A rule such as `0.0.0.0 example.com.` keeps its trailing dot.
- Every newline-terminated pass-through line is written followed by an
  extra empty line. An unterminated last line is trimmed and gets one
  newline.

The model follows the code. `Merge.PrepareTerminatedLine` states what the
code does on terminated lines, and `Merge.PrepareLastLine` states what it
does on the last line.

## Model

| member | source | states |
|---|---|---|
| Rules.StripRule | updateHostsFile.py:398-404 | The result is `""` exactly when the line has fewer than two words. Otherwise its words are the line's first two words, joined by one space. |
| Rules.StripRuleIdempotent | updateHostsFile.py:398-404 | Stripping a stripped rule changes nothing. |
| Rules.StripRuleKeepsTwoWords | updateHostsFile.py:398-404 | Two words joined by one space come back unchanged. |
| Rules.MatchRuleIffShape | updateHostsFile.py:380 | The hand-written matcher succeeds exactly when the rule reads: blanks, four dot-separated digit runs, whitespace, then a `[\w.-]` character. |
| Rules.MatchRule | updateHostsFile.py:380-381 | On a match, the host-name group is a non-empty run of `[\w.-]`, and the suffix group contains no newline. Which text each group holds is stated by `Rules.MatchRuleGroups`. |
| Rules.MatchRuleGroups | updateHostsFile.py:380-381 | For a line of the accepted shape: group 1 is the dotted quad after the leading blanks, group 2 is the longest `[\w.-]` run after the whitespace, and group 3 is the rest of the line up to its first newline. |
| Rules.NormalizeRuleOfShape | updateHostsFile.py:379-388 | For any line of the accepted shape, the host name is the lower-cased `[\w.-]` run after the whitespace. The written line carries ` #` and the rest of the first line exactly when that rest is non-empty and comments are kept. |
| Rules.NormalizeRule | updateHostsFile.py:379-390 | `None` (the `(None, None)` result) exactly when the pattern does not match. Otherwise the host name is a non-empty run of host-name characters, and the written line starts with the target address, a space and the host name, and ends with a newline. |
| Rules.NormalizeRuleValue | updateHostsFile.py:381-388 | The host name is the lower-cased group. The line is `target host #suffix` exactly when the suffix is non-empty and comments are kept, and `target host` otherwise, each with a newline. |
| Rules.NormalizeStrippedRule | updateHostsFile.py:361-364 | Applied to a stripped rule, normalization succeeds exactly when the first word is a dotted quad and the second starts with a host-name character. The host name is then the lower-cased `[\w.-]` prefix of the second word, and the rest of that word is the only possible comment. |
| Rules.CanonicalRuleIsFixedPoint | updateHostsFile.py:379-404 | When the target address is a dotted quad, a comment-free line `target host` as normalization writes it reads back through stripping and normalization as the same host name and the same line. A line with a kept comment does not: stripping drops the comment. |
| Rules.RejectedRules | testUpdateHostsFile.py:124-127 | `foo`, `128.0.0.1`, `bar.com/usa`, `0.0.0 google`, `0.1.2.3.4 foo/bar` and `twitter.com` are all refused. |
| Exclusions.ExcludeDomain | updateHostsFile.py:252-253 | One compiled expression is appended and the earlier ones are kept. Its text is the exclusion pattern followed by the domain. |
| Exclusions.RegexSearchIsDomainSearch | updateHostsFile.py:96 | Searching for the pattern of line 96 followed by the domain, as line 253 compiles it and line 258 searches it, succeeds exactly when the domain occurs somewhere in the word, with `.` in the domain matching any character but a newline. |
| Exclusions.FindExclusion | updateHostsFile.py:257-260 | The loop over the compiled expressions finds one exactly when some expression's domain search succeeds in the word. With `Exclusions.RegexSearchIsDomainSearch`, that is exactly when some full regular expression is found. |
| Exclusions.MatchesExclusions | updateHostsFile.py:255-260 | True exactly when some compiled exclusion is found in the second word of the stripped rule. |
| Exclusions.ExcludeDomainExcludes | updateHostsFile.py:252-260 | After a domain is excluded, every rule whose second word contains that domain matches the exclusions. Rules that matched before still match. |
| Exclusions.DotMatchesAnyCharacter | updateHostsFile.py:96 | An unescaped `.` in an excluded domain, compiled after the pattern of line 96 at line 253 and searched at line 258, also matches any other character, so `a.b` excludes `aXb`. |
| Exclusions.ParseWhitelist | updateHostsFile.py:328-333 | A string is an entry exactly when some line, trimmed of space, tab, newline and carriage return, equals it and is neither empty nor a `#` comment. |
| Exclusions.WhitelistEntriesAreTrimmed | updateHostsFile.py:331-332 | Every entry is non-empty, does not start with `#`, and is already trimmed. |
| Exclusions.OnWhitelist | updateHostsFile.py:365-368 | True exactly when some whitelist entry occurs anywhere in the line. |
| Exclusions.MatchesWebPrefix | updateHostsFile.py:624-625 | True exactly when the domain starts with `www`, at most three digits and a dot, or starts with `http`. |
| Exclusions.IsValidDomainFormat | updateHostsFile.py:620-631 | A domain is refused exactly when it is empty, starts with `www`, up to three digits and a dot, or starts with `http`. |
| Merge.ReplaceTabPlus | updateHostsFile.py:350 | The result is no longer than the line and contains no tab followed by `+`. Which text it is is stated by `Merge.ReplaceTabPlusIsSplitJoin`. |
| Merge.SplitTabPlus | updateHostsFile.py:350 | The pieces joined by `"\t+"` give the line back, and no piece contains `"\t+"`. |
| Merge.ReplaceTabPlusJoin | updateHostsFile.py:350 | Pieces free of `"\t+"` that are joined by `"\t+"` come out joined by one space, each piece unchanged, as Python defines `replace`. |
| Merge.ReplaceTabPlusIsSplitJoin | updateHostsFile.py:350 | For every line, the replacement equals the line split on `"\t+"` and joined by one space. |
| Merge.ReplaceTabPlusAppend | updateHostsFile.py:350 | A last character other than `+` is copied after the replaced text. |
| Merge.ReplaceTabPlusAbsent | updateHostsFile.py:350 | A line without a tab followed by `+` is left unchanged. |
| Merge.ReplaceTabPlusIdempotent | updateHostsFile.py:350 | Replacing twice is replacing once. |
| Merge.PrepareLine | updateHostsFile.py:350-352 | The prepared line always ends with a newline. Its exact text is stated by `Merge.PrepareTerminatedLine` and `Merge.PrepareLastLine`. |
| Merge.PrepareTerminatedLine | updateHostsFile.py:350-352 | A line that ends with a newline is not trimmed at all. Only the tab-plus replacement applies, and a second newline is added, so trailing spaces and dots survive. |
| Merge.PrepareLastLine | updateHostsFile.py:350-352 | On a last line without a newline, a trailing space or dot is removed, whatever `"\t+"` the line contains. |
| Merge.ClassifyPrepared | updateHostsFile.py:354-369 | On a prepared line: pass-through exactly when the line starts with `#` or whitespace, and then the text is kept. A candidate's host name and rule are exactly what normalization of the stripped line returns. Which lines are candidates is stated by `Merge.CandidateIff`, and the rule's text by `Merge.CandidateRule`. |
| Merge.Classify | updateHostsFile.py:349-369 | A line passes through exactly when its prepared form starts with `#` or whitespace, and then its text is that prepared form. A candidate's host name and rule are exactly what normalization of the stripped prepared line returns. |
| Merge.CandidateRule | updateHostsFile.py:361-369 | The rule a candidate writes is the target address, a space and the lower-cased host-name prefix of the second word. It then has ` #` and the rest of that word when that rest is non-empty and comments are kept, and ends with a newline. |
| Merge.CandidateIff | updateHostsFile.py:358-369 | A line that is not passed through offers a rule exactly when all of these hold: it has no `::1`, it has two words, no exclusion is found in the second word, the first word is a dotted quad, the second word starts with a host-name character, and no whitelist entry occurs in the line. The host name is the lower-cased prefix of the second word. |
| Merge.VerdictsAt | updateHostsFile.py:345-369 | The verdict at position `i` is the verdict on line `i`. |
| Merge.Step | updateHostsFile.py:369-372 | The seen set only grows, and what was written stays a prefix of what is written next. |
| Merge.StepPassThrough | updateHostsFile.py:354-357 | A pass-through line is written as prepared and changes neither the seen set nor the count. |
| Merge.Fold | updateHostsFile.py:345-372 | The loop only adds to the seen set and only appends to the output. What it writes is stated by `Merge.FoldIsExpected` and `Merge.FirstOccurrenceWins`. |
| Merge.FoldIsExpected | updateHostsFile.py:343-372 | The loop writes exactly the reference output. Its seen set is the reserved names plus every host name a line offered. Its count is the initial count plus the number of rules written. |
| Merge.FirstOccurrenceWins | updateHostsFile.py:369-372 | A rule for host `h` is written exactly when some line offers `h` with that rule, no earlier line offered `h`, and `h` is not reserved. |
| Merge.ExpectedRulesDistinct | updateHostsFile.py:369-372 | No host name is written twice, and no reserved name is ever written. |
| Merge.ClaimedIff | updateHostsFile.py:369-371 | A host name is in the offered set exactly when some line's verdict offers it. |
| Merge.FoldGrows | updateHostsFile.py:369-371 | Over any stretch of lines, the seen set only grows and the output is only appended to. |
| Merge.WithWhitelist | updateHostsFile.py:328-333 | The whitelist file's entries are appended after the configured exclusions, and nothing else in the settings changes. |
| Merge.Absorb | updateHostsFile.py:354-372 | One loop iteration moves the state by exactly one step of the fold and keeps the written text in step with the output. |
| Merge.RemoveDupsAndExcl | updateHostsFile.py:326-374 | The text written is the reference output for the lines of the merged file, and the new count is the old count plus the number of rules in it. |
| Header.DecimalRoundTrip | updateHostsFile.py:415 | The decimal digits of a count read back to the count. |
| Header.GroupCommas | updateHostsFile.py:415 | In the grouped digits, a comma stands exactly at every fourth place from the right, and everything else is a digit. |
| Header.GroupUngroup | updateHostsFile.py:415 | Removing the commas gives the digits back. |
| Header.FormatThousands | updateHostsFile.py:415 | The `"{:,}"` text of a count is never empty. What it reads back to is stated by `Header.FormatThousandsRoundTrip`, and where its commas stand by `Header.GroupCommas`. |
| Header.FormatThousandsRoundTrip | updateHostsFile.py:415 | The count as written in the header reads back to the count, negative counts included. |
| Header.FormatThousandsExample | updateHostsFile.py:415 | 1234567 is written `1,234,567`. |
| Header.WriteOpeningHeader | updateHostsFile.py:406-439 | The body is written unchanged after the header pieces. |
| Header.ExtensionsLineInserted | updateHostsFile.py:410-419 | Without extensions the banner is eight writes. A non-empty extension list adds exactly one write, the fourth, holding the extensions line. |
| Header.LinuxEntriesInserted | updateHostsFile.py:421-432 | The static block is empty when skipped. Otherwise it holds the seven fixed entries, then the two machine entries only on Linux, then a blank line. |
| Header.HeaderOrder | updateHostsFile.py:406-439 | The file is the banner, then the static block, then the preamble (if any), then the body. |
| Header.ReadLinesAppend | updateHostsFile.py:439 | Text that ends with a newline splits into lines independently of what follows it. |
| Header.BodyLinesUnchanged | updateHostsFile.py:434-439 | When the preamble is absent or ends with a newline, the file's lines are the header's lines followed by the body's lines, unchanged. |
| Settings.SortDistinct | updateHostsFile.py:135 | The result is strictly sorted in code-point order and has exactly the elements of the input. |
| Settings.SelectExtensions | updateHostsFile.py:133-135 | The selection is strictly sorted and holds exactly the names that were both requested and available. |
| Settings.SelectionIsCanonical | updateHostsFile.py:133-135 | Any strictly sorted list of exactly those names is the selection. |
| Settings.ReadmeKeyRoundTrip | updateHostsFile.py:442-445 | When no extension name contains `-`, splitting the key on `-` gives the extensions back. |
| Settings.ReadmeKey | updateHostsFile.py:442-445 | With no extensions, the key is `base`. |
| Prompts.QueryYesNo | updateHostsFile.py:570-598 | The invalid-default error is raised exactly when the default is not None, `yes` or `no`. The default is `yes` when none is given. |
| Prompts.EmptyReplyMeansYes | updateHostsFile.py:570-613 | Called without a default, the question takes an empty reply as yes. |
| Prompts.Ask | updateHostsFile.py:600-617 | The asking loop fails only because the replies ran out. Which answer it gives is stated by `Prompts.AskAnswersFirstSettling`. |
| Prompts.AskAnswersFirstSettling | updateHostsFile.py:600-617 | With a valid default, the replies run out exactly when none of them settles the question. Otherwise the answer is the one the first settling reply gives. |
| Prompts.QueryYesNoResult | updateHostsFile.py:591-617 | The whole query returns the first settling reply's answer. |
| Prompts.EmptyReplyNeedsDefault | updateHostsFile.py:609-615 | Without a default, an empty reply is refused like any unknown reply. |
| Text.ReadLines | updateHostsFile.py:345 | The lines concatenate back to the text. Only the last line may lack a newline, and no line contains a newline anywhere else. |
| Text.Split | updateHostsFile.py:399 | `str.split()` yields only non-empty words without whitespace. Which words they are, for every input, is stated by `Text.SplitAllSpace`, `Text.SplitLeadingSpace` and `Text.SplitAfterToken`. |
| Text.SplitAllSpace | updateHostsFile.py:399 | Text made only of whitespace splits into no words. |
| Text.SplitLeadingSpace | updateHostsFile.py:399 | A leading whitespace character yields no word: splitting skips it. |
| Text.SplitAfterToken | updateHostsFile.py:399 | A maximal run of non-whitespace at the start is the first word, and the rest is split after it. With the two lemmas above, this fixes the words of every text. |
| Text.SplitJoin | updateHostsFile.py:399-404 | Splitting words joined by single spaces gives the words back. |

## Left out

- File and network I/O, downloads and unpacking of sources, the creation of
  the merged temporary file, `argparse`, moving the hosts file into place,
  flushing the DNS cache, and colours. They are effects outside the logic
  modelled here.
- The UTF-8 decoding of each line. Text is taken as already decoded.
- Unicode behaviour: `\s`, `\d`, `\w` and `lower()` are modelled on ASCII
  (with Python 3's whitespace set). Non-ASCII letters and digits are outside
  the model.
- Python 2. The script also runs under Python 2, where the `\s` of line 354
  has no Unicode flag and matches only space, tab, newline, carriage return,
  form feed and vertical tab. A line starting with `\x1c`-`\x1f`, `\x85` or
  `\xa0` passes through under Python 3 only, and the model follows Python 3.
- The printing of refused rules in `normalizeRule` and of the messages in
  `isValidDomainFormat` and `query_yes_no`. They do not affect results.
- `time.strftime`, `platform.system()`, `socket.gethostname()`,
  `os.path.join(outputsubfolder, "")` and the contents of the `myhosts`
  preamble file. They are parameters of `Header.HeaderInfo`.
- `keepdomaincomments` is a boolean. The source tests the truthiness of
  whatever `argparse` stores.
- Prompts.QueryYesNo: the replies are given as a sequence, already
  lower-cased. The prompt text and the endless re-asking become the
  `NoMoreInput` error when the sequence runs out.
- Exclusions.ExcludeDomain: domains are limited to letters, digits, `.` and
  `-`. Other regular-expression syntax a user could type is not modelled.
  Within that alphabet, only `.` is special, and it is modelled as matching
  any character but a newline.
- The interactive loops `displayExclusionOptions` and
  `gather_custom_exclusions`. They only combine `query_yes_no`,
  `isValidDomainFormat` and `excludeDomain`, which are modelled.
- The writing of the readme data (`json.dump`). Only the key is modelled.
- The static entries are not shown to use the reserved names of the seen
  set. That would need character-level reasoning on the long literals.
