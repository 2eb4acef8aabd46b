# Blog checkers, modelled in Dafny

The repository ships two checker scripts for a personal blog:

- `tools/test_posts.py` checks blog post files. It runs eight independent checks on each post:
  - date-prefixed file name;
  - front matter delimiters;
  - required front matter keys;
  - `date:` value shape;
  - non-empty `title:`;
  - length;
  - balanced code fences;
  - a space after header marks.
- `tools/test_install.py` checks `tools/install.sh`. It confirms the file exists, then runs twenty checks on the script (twenty-one results in all):
  - shebang, execute bit, `bash -n`, CRLF line endings;
  - presence of the expected commands;
  - extraction and comparison of the Ruby version;
  - four first-occurrence ordering comparisons.

Both scripts carry the same pass/fail reporter class, `TestRunner`. It counts the results and turns them into an exit status.

This project models all of that in Dafny:

- `text.dfy` (module `Text`) holds the `str` operations the checks use: `find`, `in`, `count`, `split('\n')`, `strip`, slicing, and a list filter. It also holds the whitespace and digit classes.
- `patterns.dfy` (module `Patterns`) hand-codes the regular-expression shapes the checks share. Each one comes twice:
  - a ghost predicate saying which substrings the expression matches, and which match Python's backtracking search reports;
  - an executable scan, with a proof that the two agree.

  The expression shapes are:
  - `^key\s*(.+)$` under `re.MULTILINE`;
  - `A.*B.*C` with literal parts;
  - `key([0-9]+\.[0-9]+\.[0-9]+)`;
  - the line-anchored `findall` of `^```` and `^#{1,6}[^# \n]`.

  The file-name and timestamp patterns, used once each, are in `test_posts.dfy` (`FilenamePattern`, `DateShape`), and `sudo apt install.*` is `InstallLine` in `test_install.dfy`.
- `reporting.dfy` (module `Reporting`) is the reporter, written once for both scripts.
  - It is a class with the three counters `TestRunner` updates in place.
  - It also keeps a log of the result lines printed: each label, and the failure detail where there is one.
  - Its invariant ties the counters to the log.
- `test_posts.dfy` (module `TestPosts`) has:
  - each post check as a function, with a lemma stating what it accepts;
  - the `test_*` methods, `test_file` and `main` as module-level methods that take the reporter and record on it.
- `test_install.dfy` (module `TestInstall`) does the same for `test_install_sh` and its `main`.

The source's `TestRunner` class is written twice, at `tools/test_posts.py:19-149` and `tools/test_install.py:23-53`. The first also holds `test_file` and the eight post checks. The parts the two share (the counters, `pass_test`, `fail_test` and `print_summary`) agree, and the rows below cite the first.

The outside world becomes inputs. `read_text` reads in text mode with universal newlines, so every `\r\n` and every lone `\r` in a file becomes `\n` before any check sees the text; `Text.ReadText` models that translation, and both checkers apply it to the stored characters.
- a post is absent, unreadable with a reason, or readable with the characters stored in it;
- the script is absent, or present with the characters stored in it and its execute bit;
- the `bash -n` run ended with exit status 0, with another status and its error output, or with an exception.

## Model

| member | source | states |
|---|---|---|
| `Text.Prefix` | tools/test_posts.py:78 | `s[:n]` has length min(len, n) and is the start of `s` |
| `Text.Find` | tools/test_install.py:198-204 | `find` gives the first occurrence, or -1 exactly when there is none |
| `Text.Contains` | tools/test_install.py:97 | `sub in s` holds exactly when `sub` occurs at some offset |
| `Text.ContainsInPrefix` | tools/test_install.py:73 | a substring occurs in a prefix exactly when it occurs in the whole text and ends inside the prefix |
| `Text.CountPositive` | tools/test_posts.py:68 | the non-overlapping `count` of a non-empty string is positive exactly when the string occurs |
| `Text.Split` | tools/test_posts.py:111 | `split('\n')` gives at least one piece and no piece holds a line feed |
| `Text.JoinSplit` | tools/test_posts.py:111 | joining the pieces of a split with line feeds gives the text back |
| `Text.SplitJoin` | tools/test_posts.py:111 | splitting a join of line-feed-free pieces gives the pieces back |
| `Text.SplitLength` | tools/test_posts.py:111-112 | the number of pieces is one more than the number of line feeds |
| `Text.SkipSpace` | tools/test_posts.py:88 | greedy `\s*` stops at the first non-whitespace character, or at the end |
| `Text.SkipSpaceStops` | tools/test_posts.py:94 | a whitespace run that ends at a non-whitespace character ends exactly there |
| `Text.Trim` | tools/test_posts.py:93 | `strip` leaves the slice of the text between a stripped prefix and a stripped suffix, with unstripped ends; it leaves nothing exactly when every character is stripped |
| `Text.ReadText` | tools/test_posts.py:43 | `read_text`'s universal newlines: the text it gives holds no carriage return and is no longer than what is stored; `ReadTextKeeps`, `LoneCr` and `ReadTextCrlf` fix what each character becomes |
| `Text.ReadTextUnchanged` | tools/test_install.py:66 | reading leaves the stored characters unchanged exactly when they hold no carriage return |
| `Text.ReadTextKeeps` | tools/test_install.py:66 | characters before the first carriage return are read as stored, in order |
| `Text.LoneCr` | tools/test_posts.py:43 | a carriage return not followed by a line feed is read as one line feed |
| `Text.ReadTextCrlf` | tools/test_install.py:66 | lines stored with `\r\n` endings are read as the same lines joined with `\n` |
| `Text.AdjacentDelimitersCountOnce` | tools/test_posts.py:68 | two `---` lines in a row share a line feed, so `count('\n---\n')` finds them once |
| `Text.NotFoundIn` | tools/test_posts.py:78 | the list filter keeps exactly the items absent from the text, in their original order |
| `Patterns.KeyValueAt` | tools/test_posts.py:88 | at one line start, the match reported is the one backtracking prefers among all matches there, and none exists when it reports none |
| `Patterns.KeyValueSearch` | tools/test_posts.py:88 | `re.search(r'^key\s*(.+)$', s, re.M)` reports the leftmost, most preferred match, and reports none exactly when no match exists |
| `Patterns.ValueAfterBlankRun` | tools/test_posts.py:103 | when the key is followed only by whitespace, the value is the next non-blank line, however many lines down |
| `Patterns.FirstOnLine` | tools/test_install.py:126 | finds the earliest place on the current line where a part matches, or reports that none exists |
| `Patterns.GreedyIsComplete` | tools/test_install.py:126 | taking each part at its earliest place on the line finds a match exactly when one exists |
| `Patterns.SearchFromIsComplete` | tools/test_install.py:132 | the scan from an offset succeeds exactly when a match starts at or after it |
| `Patterns.SearchIsComplete` | tools/test_install.py:138 | `re.search` of a same-line `A.*B.*C` succeeds exactly when the pattern matches somewhere |
| `Patterns.VersionAt` | tools/test_install.py:156 | at one offset, the dots are forced and the last digit run is taken whole |
| `Patterns.VersionSearch` | tools/test_install.py:185-186 | the version triple is read at the leftmost match, its last run is maximal, and none is reported exactly when no match exists |
| `Patterns.MatchLength` | tools/test_posts.py:129 | a fence or unspaced-header match exists at an offset exactly when the line starts there with the pattern, and it stays on that line |
| `Patterns.FindAllCountsMatches` | tools/test_posts.py:120 | the `findall` scan counts exactly the offsets where a match starts |
| `Patterns.NothingInsideMatch` | tools/test_posts.py:120 | no match starts inside another match, so skipping past a match loses none |
| `Patterns.FenceCountIsLineCount` | tools/test_posts.py:120 | `len(findall('^```'))` is the number of lines opening with three backticks |
| `Patterns.HeaderCountIsLineCount` | tools/test_posts.py:129 | `len(findall('^#{1,6}[^# \n]'))` is the number of flagged lines |
| `Patterns.SevenHashesNotFlagged` | tools/test_posts.py:129 | a line opening with seven or more `#` is never flagged |
| `Reporting.ToEvent` | tools/test_posts.py:60-64 | a check prints its pass label exactly when it passed, and otherwise its fail label and the failure |
| `Reporting.PassedCount` | tools/test_posts.py:27 | passes never outnumber results |
| `Reporting.AllPassedCount` | tools/test_posts.py:143-149 | every result passed exactly when the passes account for all of them |
| `Reporting.PassedCountAppend` | tools/test_posts.py:25-34 | recording one result adds one to the passes exactly when it passed |
| `Reporting.Reporter.constructor` | tools/test_posts.py:20-23 | a new reporter has zero counters, an empty log and its invariant |
| `Reporting.Reporter.PassTest` | tools/test_posts.py:25-28 | `pass_test` adds one run and one pass, leaves failures alone, prints one line and keeps run = passed + failed |
| `Reporting.Reporter.FailTest` | tools/test_posts.py:30-34 | `fail_test` adds one run and one failure, leaves passes alone, prints one line with its detail and keeps the invariant |
| `Reporting.Reporter.Report` | tools/test_posts.py:121-125 | a check's `if`/`else` prints exactly one line, the one its outcome selects |
| `Reporting.Reporter.PrintSummary` | tools/test_posts.py:136-149 | the exit status is 1 when some check failed and 0 exactly when every recorded check passed |
| `TestPosts.MdTailMeaning` | tools/test_posts.py:59 | the scan for `.*\.md$` agrees with the pattern, counting `$` before a final line feed |
| `TestPosts.FilenameFormatMeaning` | tools/test_posts.py:57-64 | the name check passes exactly for 4 digits, `-`, 1–2 digits, `-`, 1–2 digits, `-`, anything without a line feed, `.md` |
| `TestPosts.UndatedNameFails` | tools/test_posts.py:59-64 | `note.md` fails the name check |
| `TestPosts.ListedPostNamesValid` | tools/test_posts.py:159-162 | both listed posts have valid names |
| `TestPosts.OpenedAndClosedFrontmatter` | tools/test_posts.py:66-73 | a post opening with `---` that has a later `---` line passes the front matter check |
| `TestPosts.NoDelimiterFrontmatter` | tools/test_posts.py:66-73 | a post with no `---` followed by a line feed fails, reporting 0 delimiters |
| `TestPosts.RequiredFieldsMeaning` | tools/test_posts.py:75-84 | passes exactly when all five keys occur in the first 500 characters; a failure lists exactly the absent keys, in the fixed order |
| `TestPosts.DateFormatMeaning` | tools/test_posts.py:94-95 | the date scan accepts exactly `DDDD-DD-DD`, whitespace, `DD:DD:DD`, whitespace, `+`/`-`, `DDDD`, with exact digit counts |
| `TestPosts.DateCheckMeaning` | tools/test_posts.py:86-99 | "No date field found" exactly when no line-start `date:` has a value; otherwise passes exactly when the stripped value has the timestamp shape |
| `TestPosts.TitleCheckMeaning` | tools/test_posts.py:101-107 | passes exactly when a line-start `title:` value, stripped of whitespace, holds a character that is not a quote |
| `TestPosts.QuotedEmptyTitleFails` | tools/test_posts.py:104-107 | `title: ""` fails |
| `TestPosts.BlankTitleTakesNextLine` | tools/test_posts.py:103-104 | a bare `title:` line takes the next non-blank line as the title, and passes |
| `TestPosts.ContentCheckMeaning` | tools/test_posts.py:109-116 | passes exactly when the post has at least ten line feeds; a failure reports the line count |
| `TestPosts.FenceCheckMeaning` | tools/test_posts.py:118-125 | passes exactly when an even number of lines open with three backticks; a failure reports how many |
| `TestPosts.ThreeFencesFail` | tools/test_posts.py:118-125 | three fence lines fail, reporting three |
| `TestPosts.HeaderCheckMeaning` | tools/test_posts.py:127-134 | passes exactly when no line opens with 1–6 `#` then a character other than `#`, space or line feed; a failure reports how many lines do |
| `TestPosts.TestFilenameFormat` | tools/test_posts.py:57-64 | records exactly the name check's result line |
| `TestPosts.TestFrontmatterExists` | tools/test_posts.py:66-73 | records exactly the front matter check's result line |
| `TestPosts.TestRequiredFields` | tools/test_posts.py:75-84 | records exactly the required-keys check's result line |
| `TestPosts.TestDateFormat` | tools/test_posts.py:86-99 | records exactly the date check's result line |
| `TestPosts.TestTitleNotEmpty` | tools/test_posts.py:101-107 | records exactly the title check's result line |
| `TestPosts.TestContentExists` | tools/test_posts.py:109-116 | records exactly the length check's result line |
| `TestPosts.TestCodeBlocksBalanced` | tools/test_posts.py:118-125 | records exactly the fence check's result line |
| `TestPosts.TestHeadersFormatted` | tools/test_posts.py:127-134 | records exactly the header check's result line |
| `TestPosts.TestFile` | tools/test_posts.py:36-55 | a readable post appends its eight results in order, an unreadable one a single failure; the reporter invariant is kept |
| `TestPosts.LineEndingsDoNotMatter` | tools/test_posts.py:42-43 | a post gets the same results whatever line endings it is stored with |
| `TestPosts.FileEventsShape` | tools/test_posts.py:42-55 | a readable post gives eight results whatever its name, the first passing exactly for a valid name; an unreadable one gives one failure |
| `TestPosts.RunPostChecks` | tools/test_posts.py:152-170 | absent posts add nothing, and the exit status is 0 exactly when every recorded result passed |
| `TestInstall.FirstLineIsBeforeFirstLineFeed` | tools/test_install.py:72 | `split('\n')[0]` is the text before the first line feed |
| `TestInstall.ShebangMeaning` | tools/test_install.py:72-76 | the shebang passes exactly when the first line opens with `#!` and contains `bash` |
| `TestInstall.LineEndingMeaning` | tools/test_install.py:97-100 | the line-ending check fails exactly when a carriage return is directly followed by a line feed in the text it is given |
| `TestInstall.LineEndingCheckNeverFails` | tools/test_install.py:66-100 | as written, on the text `read_text` gives, the line-ending check passes for every stored script |
| `TestInstall.CrlfScriptRecordedAsUnix` | tools/test_install.py:66-100 | a script stored as `#!/bin/bash\r\n` holds `\r\n` yet records the Unix line-endings pass |
| `TestInstall.RawLineEndingEvent` | tools/test_install.py:96-100 | the intended check, on the stored characters: fails exactly when `\r\n` occurs there, and then reading would change the text |
| `TestInstall.InstallLineMeaning` | tools/test_install.py:113-116 | the text searched runs from the first `sudo apt install` to the end of its line, and there is none exactly when the words never occur |
| `TestInstall.DependencyMeaning` | tools/test_install.py:111-123 | passes exactly when all six packages are named on that line; otherwise it lists exactly the absent ones in order, or reports no `apt install` exactly when there is none |
| `TestInstall.PatternsNewlineFree` | tools/test_install.py:126-150 | none of the same-line patterns can match a line feed |
| `TestInstall.SameLineChecksMeaning` | tools/test_install.py:126-182 | each `.*` presence check passes exactly when its pattern matches on some line |
| `TestInstall.VersionAfterMeaning` | tools/test_install.py:156-158 | the version is the group of the leftmost `key N.N.N` match, its last run cannot be extended, and none is found exactly when no match exists |
| `TestInstall.VersionConsistencyMeaning` | tools/test_install.py:184-195 | passes exactly when both versions exist and are equal; differing versions fail citing both; a missing one fails with "could not extract" |
| `TestInstall.FoundBeforeMeaning` | tools/test_install.py:198-211 | a `find` comparison holds exactly when the later command occurs and the earlier is missing or occurs before all of it, so two missing commands fail |
| `TestInstall.OrderEvents` | tools/test_install.py:214-219 | one result per comparison, in order, each passing exactly when its comparison held |
| `TestInstall.InstallEventsShape` | tools/test_install.py:56-219 | a missing script records one failure only; a present one records 21 results, with existence, the execute bit and the line endings always passing and the order results last |
| `TestInstall.TestShebang` | tools/test_install.py:72-76 | records exactly the shebang result line |
| `TestInstall.TestExecutable` | tools/test_install.py:79-83 | records a pass whatever the execute bit |
| `TestInstall.TestSyntax` | tools/test_install.py:86-94 | records a pass for exit status 0, and otherwise a failure with the error output or the exception |
| `TestInstall.TestLineEndings` | tools/test_install.py:97-100 | records exactly the line-ending result line |
| `TestInstall.TestAptUpdate` | tools/test_install.py:106-109 | records exactly the `apt update` result line |
| `TestInstall.TestDependencies` | tools/test_install.py:111-123 | records exactly the dependency result line |
| `TestInstall.TestRbenvClone` | tools/test_install.py:126-129 | records exactly the rbenv clone result line |
| `TestInstall.TestRubyBuildClone` | tools/test_install.py:132-135 | records exactly the ruby-build clone result line |
| `TestInstall.TestPathExport` | tools/test_install.py:138-141 | records exactly the PATH export result line |
| `TestInstall.TestRbenvInit` | tools/test_install.py:144-147 | records exactly the `rbenv init` result line |
| `TestInstall.TestSourceBashrc` | tools/test_install.py:150-153 | records exactly the `source` result line |
| `TestInstall.TestRubyInstall` | tools/test_install.py:156-161 | records exactly the `rbenv install` result line, which names the version found |
| `TestInstall.TestRubyGlobal` | tools/test_install.py:164-167 | records exactly the `rbenv global` result line |
| `TestInstall.TestBundler` | tools/test_install.py:170-173 | records exactly the bundler result line |
| `TestInstall.TestYesFlag` | tools/test_install.py:179-182 | records exactly the `-y` result line |
| `TestInstall.TestVersionConsistency` | tools/test_install.py:184-195 | records exactly the version-consistency result line |
| `TestInstall.TestCommandOrder` | tools/test_install.py:213-219 | records one line per comparison in order; `all_order_correct` ends true exactly when every comparison held |
| `TestInstall.BasicFileTests` | tools/test_install.py:71-100 | records the shebang, execute-bit, syntax and line-ending results, in that order |
| `TestInstall.CommandValidationTests` | tools/test_install.py:102-173 | records the ten command-presence results, in order |
| `TestInstall.ScriptQualityTests` | tools/test_install.py:175-219 | records the `-y`, version-consistency and four order results, in order |
| `TestInstall.TestInstallSh` | tools/test_install.py:56-219 | a missing script records only its failure; otherwise all checks are recorded in the source's order, keeping the reporter invariant |
| `TestInstall.RunInstallChecks` | tools/test_install.py:222-228 | the exit status is 0 exactly when every recorded result passed, so a missing script exits with 1 |

## Findings

| source | as written | input that shows it | evidently intended | confidence | as-written member | corrected member |
|---|---|---|---|---|---|---|
| tools/test_install.py:66-100 | `'\r\n' in content` tests the text `read_text()` returns, in which universal newlines have already turned every `\r\n` into `\n`, so the check always passes | an `install.sh` stored as `#!/bin/bash\r\n` records "install.sh has Unix line endings (LF)" | look for `\r\n` in the stored characters (for instance `read_bytes()` or `read_text(newline='')`) | high; not executed | `TestInstall.LineEndingCheckNeverFails`, `TestInstall.CrlfScriptRecordedAsUnix` | `TestInstall.RawLineEndingEvent` |

The run (`TestInstallSh`, `InstallEvents`) models the code as written, so it records the pass. `RawLineEndingEvent` is the result line the corrected check would record, and it is proved to fail exactly when the stored characters hold `\r\n`.

## Left out

- The `bash -n` run (tools/test_install.py:86-94) is a separate process with a five-second timeout. Its outcome is an input, `SyntaxResult`.
- File-system access is an input: `exists`, `read_text`, `stat` and the post paths. A post is `Absent`, or `Present` with its stored characters or its read error. The script is `None`, or `Some` with its stored characters and execute bit. Of `read_text` the model keeps only the line-ending translation (`ReadText`).
- An exception from `read_text` on an existing `install.sh` is not modelled. The source does not catch it, so the program would stop with a traceback.
- Printing, colours, section headings and the warnings for a missing post or a missing execute bit are output only.
- The log keeps each result's label as printed.
- A failure's detail is a datatype holding the values the message interpolates (the delimiter count, the missing keys, both versions, and so on), not the formatted text.
- `\d` in the file-name and date patterns is taken to be the ASCII digits. Python's `\d` on `str` also accepts other Unicode decimal digits.
- Strings are sequences of code points, as Python's `str` is. Decoding the file's bytes into characters is not modelled; only the newline translation that follows it is.
- `assets/js/cache-buster.js` is not part of this model. It is browser DOM and service-worker code that reads the clock and does floating-point arithmetic.

Two details of the code the model keeps:
- The order check compares seven `find` offsets in four pairs (tools/test_install.py:198-211).
- The header pattern also excludes a line feed after the `#` marks (tools/test_posts.py:129).

`all_order_correct` is computed and never read in the source. `TestCommandOrder` returns it, and `TestInstallSh` discards it.
