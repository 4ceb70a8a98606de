# certstream-pipe in Dafny

A model of `pipe.py`, the script that reads certificate-transparency lines
printed by `certstream`, counts how often each top-level domain occurs, and
after every line prints the ten most frequent domains with their counts.
Each line goes through four stages:

1. **Parser** (`parser.dfy`): `filter_top_domain_name` takes the second
   `" - "`-separated field of the line (the text after the first delimiter,
   up to the second if there is one) and keeps its last dot-separated label. Python's
   `str.split` is modelled once, for any non-empty separator, with its round
   trip through `join`.
2. **Normalizer** (`normalizer.dfy`): `clean_string` deletes the matches of
   the regular expression `\x1b\[.*?[@-~]` (ANSI control sequences), then
   every newline and every space. The regular expression is modelled as a
   left-to-right scanner that takes the shortest match.
3. **Counter** (`counter.dfy`): the global dictionary `domain_stats` and
   `create_statistics`. This is a class whose fields are the dictionary's
   keys in insertion order and their counts. A ghost field records every
   name counted so far. The class invariant is that the dictionary equals
   the tally of that record.
4. **Ranker** (`ranker.dfy`) and **Reporter** (`reporter.dfy`):
   - `sort_domains` sorts the counts and the keys by count, both in
     descending order, and zips them.
   - `display_top_ten` is a method with the script's two loops. It returns
     the arguments of its `print` calls.

`pipeline.dfy` chains the stages as `main` does for one line.
`wrappers.dfy` holds the `Option` and `Result` types.

## Model

| member | source | states |
|---|---|---|
| Parser.Find | pipe.py:33 | the search behind `split`: a found index is an occurrence of the separator (`FindLeftmost` and `FindNone` give the rest) |
| Parser.FindLeftmost | pipe.py:33 | the separator search finds the leftmost occurrence; nothing is found only when there is no occurrence |
| Parser.FindNone | pipe.py:33 | the search fails exactly when the separator does not occur in the string |
| Parser.Split | pipe.py:33-35 | `s.split(sep)` always has at least one piece; `SplitLeftmost` fixes where it cuts, and `JoinSplit`, `SplitPiecesFree` and `SplitSingle` give the pieces' other properties |
| Parser.JoinSplit | pipe.py:33-35 | joining the pieces of `s.split(sep)` with `sep` gives back `s` |
| Parser.SplitPiecesFree | pipe.py:33-35 | no piece of a split contains the separator |
| Parser.SplitLeftmost | pipe.py:33-35 | each cut is at the leftmost occurrence of the separator: no piece but the last, followed by the separator without its last character, contains the separator (this fixes the cuts also for the self-overlapping `" - "`) |
| Parser.SplitSingle | pipe.py:33 | a split has one piece, the whole string, exactly when the separator does not occur |
| Parser.Last | pipe.py:35 | `xs[-1]` is an element of the list (`LastPieceIsSuffix` and `LastPieceAfterSeparator` say which piece it is) |
| Parser.LastPieceIsSuffix | pipe.py:35 | the last piece of a split is a suffix of the string |
| Parser.LastPieceAfterSeparator | pipe.py:35 | the last piece starts the string or follows an occurrence of the separator |
| Parser.LastLabel | pipe.py:35 | `split(".")[-1]` has no dot, ends the domain, and is the whole domain or follows a dot; a domain without a dot is its own last label |
| Parser.LastLabelAfterDot | pipe.py:35 | the last label of `a + "." + b` is `b` when `b` has no dot |
| Parser.FilterTopDomainName | pipe.py:21-37 | fails exactly when the line has no `" - "` (where Python raises `IndexError`); a result never contains a dot |
| Parser.SplitAtFirstDelimiter | pipe.py:33 | when the delimiter after a prefix is the line's first, `split(" - ")` yields the prefix and then the split of the rest |
| Parser.FilterWellFormed | pipe.py:21-37 | for a prefix, the delimiter and a domain, the result is the last label of the domain |
| Parser.FilterSecondField | pipe.py:33-35 | on a line with two or more delimiters the result is the last label of the field between the first and the second, whatever follows |
| Parser.ExampleLine | pipe.py:21-37 | any timestamp, log URL, delimiter and domain `name.tld` yields `tld` |
| Parser.FilterExampleCom | test_pipe.py:8-12 | the first test line yields `com` |
| Parser.FilterExampleDe | test_pipe.py:9-13 | the second test line yields `de` |
| Parser.FilterExampleFr | test_pipe.py:10-14 | the third test line yields `fr` |
| Normalizer.FinalFrom | pipe.py:51 | the lazy `.*?[@-~]` stops at the first final character, with no newline before it; otherwise no final character can be reached |
| Normalizer.MatchEnd | pipe.py:51 | the match at the start of a string is the shortest one; no match means none of any length |
| Normalizer.Remove | pipe.py:53 | `replace(c, "")` leaves no `c` |
| Normalizer.RemoveCounts | pipe.py:53 | removal keeps the number of occurrences of every other character |
| Normalizer.RemoveSubsequence | pipe.py:53 | removal only deletes characters and keeps the rest in order |
| Normalizer.RemoveAbsent | pipe.py:53 | a string without `c` is unchanged |
| Normalizer.RemoveConcat | pipe.py:53 | removal distributes over concatenation |
| Normalizer.StripEscapes | pipe.py:51 | the `re.sub` never lengthens the string (`StripEscapesPlainPrefix`, `ControlSequenceRemoved` and `UnmatchedEscKept` give its three cases) |
| Normalizer.StripEscapesSubsequence | pipe.py:51 | deleting control sequences only deletes characters |
| Normalizer.StripEscapesAbsent | pipe.py:51 | a string without ESC is unchanged |
| Normalizer.StripEscapesPlainPrefix | pipe.py:51 | text before the first ESC is copied through unchanged |
| Normalizer.ControlSequenceRemoved | pipe.py:51 | ESC `[`, a body with no newline or final character, then a final character, is deleted whole and scanning resumes after it |
| Normalizer.UnmatchedEscKept | pipe.py:51 | an ESC at which the pattern matches at no length is kept, and scanning goes on from the next character |
| Normalizer.CleanString | pipe.py:40-55 | the result holds no newline and no space |
| Normalizer.CleanStringSubsequence | pipe.py:40-55 | the result is a subsequence of the input, so never longer |
| Normalizer.CleanStringIdentity | pipe.py:40-55 | an input without ESC, newline or space is returned unchanged |
| Normalizer.CleanStringColouredLabel | test_pipe.py:28-31 | `"ca\x1b[0m \n"` is cleaned to `"ca"` |
| Normalizer.CleanStringSplitSequence | pipe.py:51-53 | an ESC separated from its `[` by a space survives, and the space is then removed |
| Normalizer.CleanStringNotIdempotent | pipe.py:51-53 | cleaning twice can delete more than cleaning once |
| Counter.Bump | pipe.py:75-79 | the counted name is present with a positive count |
| Counter.BumpProperties | pipe.py:75-79 | a known name's count goes up by one with the key order kept; a new name is appended last with count 1; the table stays well formed and every other name and count is as it was |
| Counter.Tally | pipe.py:58-81 | the dictionary after one `create_statistics` call per name, in order; every key has a count (`TallyCounts`, `TallyKeyOrder` and `TallySum` characterise it) |
| Counter.TallyWellFormed | pipe.py:18 | the dictionary built by any sequence of calls has distinct keys, the same names as keys and as entries, and counts of at least 1 |
| Counter.TallyCounts | pipe.py:58-81 | after any sequence of calls a name is a key exactly when it was counted, and its count is its number of occurrences |
| Counter.TallyKeyOrder | pipe.py:75-79 | the keys are the counted names, each once, in order of first occurrence |
| Counter.TallySum | pipe.py:58-81 | the counts add up to the number of calls |
| Counter.TallyOrderIndependent | pipe.py:58-81 | the counts do not depend on the order of the calls |
| Counter.TallyExample | test_pipe.py:17-25 | com, com, de, fi, com, cz, de give com 3, de 2, fi 1, cz 1, with keys in that order |
| Counter.DomainStats.constructor | pipe.py:18 | the dictionary starts empty |
| Counter.DomainStats.Record | pipe.py:74-81 | a known name's count goes up by one; a new name is appended with count 1; the invariant is kept |
| Counter.DomainStats.Snapshot | pipe.py:72-73 | returns the dictionary, which is the tally of all names counted and always well formed, and changes nothing |
| Counter.DomainStats.CreateStatistics | pipe.py:58-81 | with `return_only` nothing changes; otherwise the name is counted; the result is the tally of all names counted |
| Ranker.Values | pipe.py:94 | `.values()` has one count per key (`CountsOf` gives them position by position) |
| Ranker.CountsOf | pipe.py:94 | the counts of the keys, position by position |
| Ranker.SortValues | pipe.py:94 | `sorted(values, reverse=True)` is non-increasing and a permutation of the counts |
| Ranker.InsertValueDescending | pipe.py:94 | inserting into a non-increasing sequence keeps it non-increasing |
| Ranker.SortValuesUnique | pipe.py:94 | any non-increasing permutation of the counts is the sorted counts |
| Ranker.DescendingUnique | pipe.py:94-98 | two non-increasing permutations of the same counts are equal |
| Ranker.SortKeys | pipe.py:96 | the sorted keys have the same length as the keys, and each has a count |
| Ranker.SortKeysPermutation | pipe.py:96 | the key sort only reorders the keys |
| Ranker.CountsOfSortKeys | pipe.py:94-96 | the counts of the sorted keys are the sorted counts |
| Ranker.SortKeysStable | pipe.py:96 | keys with equal counts keep their insertion order |
| Ranker.Zip | pipe.py:98 | pairs elements at equal indices, as many as the shorter input |
| Ranker.SortDomains | pipe.py:84-100 | one pair per key, and each pair holds a key and that key's own count |
| Ranker.SortDomainsNames | pipe.py:96-98 | the ranked names are the sorted keys |
| Ranker.SortDomainsPermutation | pipe.py:84-100 | every key is ranked, once per occurrence |
| Ranker.SortDomainsDescending | pipe.py:84-100 | counts never increase along the ranking |
| Ranker.SortDomainsStable | pipe.py:84-100 | ranked keys with equal counts come in insertion order |
| Ranker.SortDomainsPairs | pipe.py:96-98 | once the key order is known, each ranked pair is that key with its count |
| Ranker.SortKeysExample | pipe.py:96 | six keys with distinct counts are sorted from the most to the least frequent |
| Ranker.SortDomainsExample | pipe.py:84-100 | ba 38, com 57, az 7, net 1, de 3, org 5 rank as com, ba, az, org, de, net with their counts |
| Reporter.Shown | pipe.py:110-112 | at most ten pairs are shown, and fewer only when the ranking is shorter |
| Reporter.FormatEntry | pipe.py:115 | `"{0}    {1}".format(*tup)` starts with the domain and is longer than the domain and the four spaces (`ParseFormatEntry` reads it back) |
| Reporter.NatToString | pipe.py:115 | `str(n)` is a non-empty string of decimal digits with no leading zero |
| Reporter.ParseNatToString | pipe.py:115 | the digits read back as the number |
| Reporter.ParseFormatEntry | pipe.py:115 | a line for a domain without spaces reads back as the domain and its count |
| Reporter.DisplayTopTen | pipe.py:103-116 | prints one `domain    count` line for each of the first `min(10, n)` pairs, in order, then `"\n"` |
| Reporter.ReportUnique | pipe.py:103-116 | a ranking determines its printed lines |
| Reporter.ReportReadsBack | pipe.py:103-116 | when no domain holds a space, each table line reads back as the pair at its position |
| Pipeline.ProcessLine | pipe.py:119-124 | a line without `" - "` fails and the dictionary is unchanged; otherwise the cleaned TLD is counted and the lines printed are the report of the new ranking |
| Pipeline.RankedSpaceFree | pipe.py:119-124 | names that went through `clean_string` stay space-free through counting and ranking |
| Pipeline.RankedCounts | pipe.py:119-124 | every ranked count is the number of times its name was counted |
| Pipeline.ReportShowsCounts | pipe.py:119-124 | each printed line reads back as a domain and the number of times it has been seen |

## Left out

- The standard-input loop (`pipe.py:127-129`) is not modelled. `ProcessLine` is one iteration of it, on a line passed as a parameter.
- Writing to standard output is not modelled. `DisplayTopTen` returns the arguments of the `print` calls instead. `print` adds a newline after each argument, so the final `print("\n")` writes two newlines.
- Python's regular-expression engine is not modelled in general. Only the one pattern `pipe.py` uses is modelled, as a scanner.
- `zip` is lazy in Python 3 and `sort_domains` returns an iterator. The model returns the list of pairs that the iterator yields.
- `Parser.FilterTopDomainName`: the `IndexError` that Python raises on a line without `" - "` ends the script. The model returns `Failure(MissingDelimiter)`, and `ProcessLine` leaves the dictionary unchanged in that case.
- `Counter.TallyExample`, `Ranker.SortKeysExample` and `Ranker.SortDomainsExample` are stated for any distinct names. The literal names of the examples are their instances.
- `Ranker.SortDomainsExample` and `Ranker.SortKeysExample` hold for any dictionary that maps the six names to these counts; the dictionary may hold other names too.
- `Counter.DomainStats.CreateStatistics` and `Counter.DomainStats.Record` return the dictionary as a `Table` value, a copy. `create_statistics` returns the global dictionary object itself. No caller changes the returned dictionary, so the copy loses no behaviour, but the aliasing is not modelled.
- `Counter.DomainStats.CreateStatistics` takes a `string` for `top_domain`. The test passes `None` with `return_only=True`, and that argument is unused on this path.
- Unicode text is modelled as sequences of Dafny `char`. Python's `str` is a sequence of code points, and every character `pipe.py` compares is ASCII.

## Where the documentation and the code differ

- The docstring of `clean_string` (`pipe.py:41-42`) says it removes any ANSI escape sequences. The code does not guarantee it: it removes escape sequences before it removes spaces, so an ESC separated from its `[` by a space survives (`Normalizer.CleanStringSplitSequence`, `Normalizer.UnmatchedEscKept`). The model follows the code.
- The module docstring (`pipe.py:5-6`) and the docstrings of `sort_domains` (`pipe.py:91`) and `display_top_ten` (`pipe.py:107`) say the domains are sorted in descending order, but none of them says how domains with equal counts are ordered. The code keeps their insertion order (`Ranker.SortDomainsStable`), and the counts are non-increasing (`Ranker.SortDomainsDescending`).
