# Nmap assistant: command patcher and target extractor

The assistant asks a local language model for an Nmap command that meets a
goal the user wrote in plain English. Two functions of `assistant.py`
contain its logic:

- `fix_command` repairs the command the model returned. It applies seven
  append-if-absent rules in a fixed order, then strips surrounding
  whitespace:
  - the output flag `-oX scan_output.xml` is always wanted;
  - five flags are wanted when the lower-cased goal mentions a keyword:
    `os` gives `-O`, `all ports` gives `-p-`, `http` gives `--script=http-*`,
    `vuln` gives `--script=vuln`, `udp` gives `-sU`;
  - the target is appended last.

  A rule appends only when its check string is not yet in the command. The
  check strings are `-oX`, `-O`, `-p-`, `--script=http-`, `--script=vuln`,
  `-sU` and the target itself.
- `extract_ip_or_domain` finds the scan target in the goal. It takes the
  leftmost dotted quad `\b(?:\d{1,3}\.){3}\d{1,3}\b`. Failing that, it takes
  the leftmost domain-like name `\b(?:[a-zA-Z0-9-]+\.)+[a-zA-Z]{2,}\b`.
  Failing both, it returns nothing.

The project has four modules:

- `Text` (text.dfy) models Python's `in`, `str.lower()` and `str.strip()` on
  ASCII strings, plus counting of occurrences.
- `Patcher` (patcher.dfy) models `fix_command`.
  - `FixCommand` is a method that updates a local command one rule at a
    time, as the source does.
  - `Patched` is its specification. It tests every flag rule against the
    original command and concatenates what fires, in rule order.
  - The two agree because no appended token contains another rule's check
    string.
- `PatcherExample` (patcher_example.dfy) works through `fix_command` on the goal of the
  quick-scan menu choice in `main` (assistant.py:110).
- `Extractor` (extractor.dfy) models `extract_ip_or_domain`.
  - Each regular expression is a declarative predicate (`IpMatchAt`,
    `DomainMatchAt`) and also a backtracking matcher function (`IpAt`,
    `DomainAt`); lemmas prove they agree.
  - `re.search` becomes a loop over start positions that is proved to
    return the leftmost match. For the domain pattern it returns the
    longest match at that start.

One could test each flag rule against the original command. The code
instead tests the command as the earlier rules left it, and `FlagRulesAgree`
proves that for these six flags the two give the same result.

## Model

| member | source | states |
|---|---|---|
| Patcher.Patched | assistant.py:52-75 | The definition used as the specification: the command, then a space and the token of each flag rule that fires on the original command, in rule order, then the target if still missing, all stripped. `FixCommand`, `FlagRulesAgree` and the `Patched*` lemmas characterise it. |
| Patcher.FlagRules | assistant.py:54-70 | The six flag rules in source order, each with its trigger, check string and appended token: `-oX` always with `-oX scan_output.xml`; "os" with `-O`; "all ports" with `-p-`; "http" with `--script=http-` and `--script=http-*`; "vuln" with `--script=vuln`; "udp" with `-sU`. |
| Patcher.Triggered | assistant.py:54-69 | The keyword occurs in the lower-cased goal; the output rule has no goal test and always triggers. |
| Patcher.TargetPiece | assistant.py:72-73 | A space and the target, unless the target already occurs in the command. |
| Patcher.Apply | assistant.py:54-70 | One rule step on the command built so far, the value-level specification of `ApplyRule`; `StepsAgree` and `FlagRulesAgree` are stated with it. |
| Patcher.ApplyRule | assistant.py:54-73 | One `if ... not in command: command += ...` step. It only appends. It leaves the command unchanged when the rule is not triggered or its check string is present. When the rule is triggered and its token starts with its check string, the check string is in the result. |
| Patcher.ApplyFlagRules | assistant.py:54-70 | The six cumulative flag steps append exactly the flag suffix computed against the original command. |
| Patcher.FixCommand | assistant.py:52-75 | The result of the step-by-step updates equals the specification `Patched`, in which each rule tests the original command. The stripped input command is a prefix of the result. Every flag whose trigger holds has its check string in the result. A target with no surrounding whitespace is in the result. |
| Patcher.StepsAgree | assistant.py:54-70 | The six flag-rule updates, each testing the command as the earlier ones left it, together append exactly the pieces of the flag suffix. |
| Patcher.FlagRulesAgree | assistant.py:54-70 | Applying the six flag rules cumulatively gives the original command followed by what each rule appends when tested against the unchanged command. |
| Patcher.AccumulatedAgrees | assistant.py:54-70 | The same agreement for the first `n` rules, for every `n` up to six. |
| Patcher.ApplyAfter | assistant.py:54-70 | A rule whose check string has no whitespace and occurs in none of the earlier tokens behaves the same on the accumulated command as on the original one. |
| Patcher.RuleFollowsEarlier | assistant.py:54-70 | Each flag rule may follow the rules before it in that sense. |
| Patcher.TokenAvoidsCheck | assistant.py:54-70 | No flag token contains the check string of a different flag rule. |
| Patcher.TokenStartsWithCheck | assistant.py:54-70 | Every flag token starts with its own check string, so a rule that fires satisfies its own check. |
| Patcher.CheckShape | assistant.py:54-70 | Every check string has at least two characters, starts with '-' and has no whitespace. |
| Patcher.OwnCheckOnce | assistant.py:54-70 | Every flag token holds its own check string exactly once. |
| Patcher.SuffixAvoids | assistant.py:54-70 | Appending tokens none of which contains a string `t` without whitespace neither creates nor removes an occurrence of `t`, in both directions. |
| Patcher.PatchedHasCheck | assistant.py:54-70 | Whenever a flag rule's trigger holds, its check string is in the result; `-oX` is always there. |
| Patcher.PatchedCount | assistant.py:54-70 | The result holds a flag's check string once if the rule was triggered and the command lacked it. Otherwise it holds exactly as many occurrences as the command did, so no flag is duplicated. |
| Patcher.FlaggedCount | assistant.py:54-70 | The flag rules add one occurrence of a rule's check string when that rule fires and none otherwise. |
| Patcher.MentionTriggers | assistant.py:57-70 | The keyword test ignores case: a goal mentioning any capitalisation of a keyword, such as "OS" or "Udp", triggers its rule. |
| Patcher.PatchedHasTarget | assistant.py:72-73 | A target with no leading or trailing whitespace is in the result. |
| Patcher.EmptyTargetNotAppended | assistant.py:72-73 | An empty target counts as already present, so nothing is appended for it. |
| Patcher.PatchedExtends | assistant.py:52-75 | Patching only appends: the stripped input command is a prefix of the result. |
| Patcher.PatchedAppends | assistant.py:52-75 | The result is the input command followed by some appended text, stripped. |
| Patcher.PatchedComplete | assistant.py:52-75 | If the command already has every triggered flag and the target, the result is the stripped command. |
| Patcher.PatchedIdempotent | assistant.py:52-75 | Patching the result again with the same goal and a whitespace-free-edged target changes nothing. |
| PatcherExample.PatchedOutputOnly | assistant.py:52-75 | When no keyword is mentioned, only the output flag (if missing) and the target (if missing) are appended. |
| PatcherExample.QuietTriggersNothing | assistant.py:57-70 | A goal with no adjacent character pair that starts a keyword, ignoring case, triggers none of the five keyword rules. |
| PatcherExample.Example | assistant.py:52-75 | The command "nmap -sV" with the goal "Find open common ports and detect service versions quickly" and the target "10.0.0.5" becomes "nmap -sV -oX scan_output.xml 10.0.0.5". |
| Text.Contains | assistant.py:54-72 | The definition of Python's `t in s`, true for the empty `t`; `ContainsOccurrence` and `OccurrenceOf` characterise it as the existence of an occurrence. |
| Text.ContainsOccurrence | assistant.py:54 | Python's `t in s` holds whenever `t` occurs in `s` at some index. |
| Text.OccurrenceOf | assistant.py:54 | When `t in s` holds, there is an index at which `t` occurs in `s`. |
| Text.ContainsAcrossSpace | assistant.py:55 | Joining two strings with a space creates no new occurrence of a pattern without whitespace. |
| Text.CountPositiveIff | assistant.py:54 | A string has a positive number of occurrences of `t` exactly when `t in s`. |
| Text.CountSplit | assistant.py:55 | Occurrences of a pattern without whitespace add up across a cut where the second part starts with a space. |
| Text.Lower | assistant.py:57 | `str.lower()` keeps the length and lower-cases each character on its own. |
| Text.LowerChar | assistant.py:57 | The result is never an upper-case letter, and it is a letter exactly when the input is one; characters other than upper-case letters are unchanged. |
| Text.LowerCharAlphabet | assistant.py:57 | An upper-case letter sits at some place of the upper-case alphabet and lower-cases to the letter at the same place of the lower-case alphabet. |
| Text.LowerIdempotent | assistant.py:57 | Lower-casing a lower-cased string changes nothing. |
| Text.LowerAppend | assistant.py:57 | Lower-casing distributes over concatenation. |
| Text.ContainsLower | assistant.py:57 | If `t` occurs in `s`, the lower-cased `t` occurs in the lower-cased `s`. |
| Text.TrimLeft | assistant.py:75 | Left-stripping yields the longest suffix that does not start with whitespace, and only whitespace is dropped. |
| Text.TrimRight | assistant.py:75 | Right-stripping yields the longest prefix that does not end with whitespace, and only whitespace is dropped. |
| Text.Strip | assistant.py:75 | `str.strip()` yields a string with no surrounding whitespace that is no longer than its input. |
| Text.StripRemovesEnds | assistant.py:75 | The stripped string is a contiguous part of the input, and everything before and after that part is whitespace. |
| Text.StripTrimmed | assistant.py:75 | Stripping a string without surrounding whitespace changes nothing. |
| Text.StripKeeps | assistant.py:75 | Stripping never cuts through an occurrence of a pattern that starts and ends with non-whitespace. |
| Text.CountStrip | assistant.py:75 | Stripping keeps the number of occurrences of such a pattern. |
| Text.StripPrefix | assistant.py:75 | The stripped form of a string is a prefix of the stripped form of any extension of it. |
| Extractor.AtBoundary | assistant.py:7 | The definition of `\b`: exactly one of the characters around the position is a word character `[A-Za-z0-9_]`, counting outside the string as a non-word character. |
| Extractor.IpMatchAt | assistant.py:7 | The definition of the dotted-quad pattern: a boundary, three groups of one to three digits each followed by '.', a fourth group, a boundary. `IpAtExact` relates it to the matcher. |
| Extractor.IpAt | assistant.py:7 | The definition of the backtracking matcher at one start; `IpAtExact` proves it returns exactly the match of `IpMatchAt`. |
| Extractor.DomainMatchAt | assistant.py:12 | The definition of the domain pattern: a boundary, one or more labels of `[a-zA-Z0-9-]` each followed by '.', a top label of two or more letters, a boundary. `DomainMatchShape` states its shape. |
| Extractor.DomainAt | assistant.py:12 | The definition of the backtracking matcher at one start; `DomainAtLongest` proves it returns the longest match of `DomainMatchAt` there. |
| Extractor.ExtractIpOrDomain | assistant.py:5-16 | The result is nothing exactly when neither pattern matches anywhere. Otherwise it is a substring of the goal. If a dotted quad exists, the result is the leftmost one, even when a domain-like name comes earlier. Otherwise the result is the leftmost, longest domain-like match. |
| Extractor.SearchIp | assistant.py:7-9 | The search returns the leftmost dotted-quad match, and returns nothing exactly when there is none. |
| Extractor.SearchDomain | assistant.py:12-14 | The search returns the leftmost start of a domain match and the longest match there, and returns nothing exactly when there is none. |
| Extractor.DotlessHasNoMatch | assistant.py:5-16 | A goal without a dot, such as "scan my local box", matches neither pattern. |
| Extractor.IpAtExact | assistant.py:7 | The backtracking matcher at a start returns `j` exactly when the pattern matches from that start to `j`. |
| Extractor.GroupsFromSound | assistant.py:7 | What the group matcher returns is a sequence of dotted groups ending at a word boundary. |
| Extractor.GroupsFromComplete | assistant.py:7 | Every sequence of dotted groups ending at a word boundary is found by the group matcher. |
| Extractor.IpMatchUnique | assistant.py:7 | At a given start the dotted-quad pattern has at most one match. |
| Extractor.FirstIpUnique | assistant.py:7-9 | The leftmost dotted-quad match is determined by the text. |
| Extractor.FourGroupsMatch | assistant.py:7 | Any four groups of one to three digits joined by dots match; values are not range-checked. |
| Extractor.NoRangeCheck | assistant.py:7 | "999.999.999.999" is a match. |
| Extractor.LongDigitRunRejected | assistant.py:7 | No match starts at or inside a run of four or more digits, so "1234.1.1.1" yields nothing from its first group. |
| Extractor.DottedNoFourDigits | assistant.py:7 | Dotted groups never hold four digits in a row. |
| Extractor.IpMatchNoFourDigits | assistant.py:7 | No dotted-quad match contains four consecutive digits. |
| Extractor.LongRunExample | assistant.py:7 | "1234.1.1.1" holds no dotted quad at all. |
| Extractor.DigitlessHasNoIp | assistant.py:7 | A goal with no digit holds no dotted quad. |
| Extractor.MatcherFindsFirstDomain | assistant.py:12 | If the matcher succeeds at a start and fails at every earlier one, what it returns there is the leftmost, longest domain match. |
| Extractor.DomainExample | assistant.py:5-16 | "scan example.com please" holds no dotted quad, and its domain match is "example.com" at positions 5 to 16; with the contract of `ExtractIpOrDomain` and `FirstDomainUnique`, the extractor returns "example.com". |
| Extractor.DomainFromSound | assistant.py:12 | What the label matcher returns is a sequence of labels ending in a top label and a word boundary. |
| Extractor.DomainFromLongest | assistant.py:12 | Every label sequence ending at a word boundary is no longer than what the greedy label matcher returns. |
| Extractor.DomainAtLongest | assistant.py:12 | What the domain matcher returns at a start is a match and the longest one there; when it returns nothing, no match starts there. |
| Extractor.DomainMatchShape | assistant.py:12 | A domain match has at least four characters and a dot. It holds only letters, digits, '-' and '.', and it ends with two letters. |
| Extractor.RunLength | assistant.py:7 | The run of a character class at a position is maximal: every character in it belongs to the class, and the one after it does not. |

## Left out

- `ask_local_llm` (assistant.py:17-26) runs the external `ollama` process; it is a foreign process call.
- `suggest_nmap_command` (assistant.py:28-50) only fills a prompt template and calls the language model.
- `run_nmap` (assistant.py:77-82) runs a shell command; it is I/O only.
- `parse_nmap_output` (assistant.py:84-96) wraps an XML library and prints. Its descendant search and its crash on a port without a `service` element are not modelled.
- `main` (assistant.py:100-134) is an interactive menu of `input` and `print`.
- Strings are modelled as ASCII:
  - `str.lower()` changes only A-Z;
  - `str.strip()` removes the ASCII whitespace Python recognises (space, 9-13, 28-31);
  - `\d` is 0-9 and `\w` is `[A-Za-z0-9_]`;
  - Unicode case mapping, Unicode whitespace and Unicode digits are not modelled.
- `fix_command` with a target of `None` raises a type error in Python. The model takes the target as a string, so that path is not modelled.
- Patcher.PatchedCount: requires that the target does not contain the flag's check string. A target that contains it adds occurrences of its own.
- Patcher.PatchedIdempotent: requires a target with no surrounding whitespace. Otherwise the final strip removes part of the target, and a second call appends it again.
- Patcher.PatchedHasTarget: requires a target with no surrounding whitespace, for the same reason.
- PatcherExample.Example: the goal is written as the concatenation of its words. The result is the same string, but the proof stays small.
