# molty-dashboard server core in Dafny

This project models the logic behind the three JSON endpoints of the dashboard server (`server.py`) and proves what that logic promises.

- **Status tracker** (`/api/status`).
  - It picks the newest `moltbot-*.log` in the log directory.
  - It keeps a class-level cursor: the last file name and the offset into it.
  - It reads only the text appended since the previous poll and summarises the last fifty non-blank lines.
  - The summary is a snapshot `{state, activity, lastAction, logs}`.
  - A log untouched for more than 30 seconds is reported as sleeping.
- **Project catalog** (`/api/projects`). The journal of published projects is split at level-2 headings, and each section becomes a record `{name, date, repo, description, stack, status}`. Every regex of the parser is written out as the search Python's regex engine performs, backtracking included.
- **Stats** (`/api/stats`). Commit and line counts are summed over the repositories in the projects directory, together with the number of published projects. The result is cached for 30 seconds.

Modules, one per file:

| file | module | what it holds |
|---|---|---|
| `options.dfy` | `Options` | `Option` |
| `text.dfy` | `Text` | Python string operations the core uses: `isspace`, `strip`, `split`, `lower`, `find`, slicing, and string ordering |
| `log_status.dfy` | `LogStatus` | choosing the file, message extraction, the keyword classifier, the scanning loop `ScanLines` proved equal to `Summary`, and what one poll does to the cursor |
| `catalog.dfy` | `Catalog` | section splitting, heading and field searches, and the loop `ParsePublished` proved equal to `Published` |
| `roundtrip.dfy` | `CatalogRoundTrip` | round trips of the parser: a heading, a field line, a repo URL and a description laid out as the journal writes them read back as what was laid out |
| `stats.dfy` | `Stats` | the summing loop `GitStats` proved equal to `TotalCommits`/`TotalLoc` |
| `dashboard.dfy` | `Dashboard` | the class `Handler` with the four class-level fields, its methods proved against the poll and cache functions, and the cache window lemmas |

Each poll and each stats request sees the world through its parameters.

- A poll gets a `LogView`:
  - the names in the log directory, or `None` when the directory is missing;
  - the file's content;
  - whether opening and reading it succeeded;
  - its age in seconds, or `None` when `getmtime` failed.
- A stats request gets:
  - the time `now`;
  - one `RepoProbe` per entry of the projects directory (is it a directory, does it hold `.git`, the commit count and the line count, each `None` when that probe failed), or `None` when the directory is missing;
  - the journal's text, or `None` when the journal is missing.

Behaviours of the code that the model keeps as written:

- **The oldest line sets the state.** The scan walks the window from newest to oldest and every line that some keyword rule classifies overwrites `state`/`activity`. The line that decides is therefore the *oldest* classified one. `OldestCodingLineWins` shows it: a window whose oldest line is `[1] write a.py` reports "coding"/"Writing code" even when a newer `git commit` line follows.
- **`lastAction` skips placeholder messages.** `lastAction` is only replaced while it still reads "No recent activity". A message whose first 120 characters are exactly that text is therefore skipped.
- **The text before the first heading can make a record.** It is kept when, once stripped, it starts with `## ` followed by something other than a newline (for example ` ## Project log` indented by a blank, or `## [Draft]`, whose `[` is not a word character; neither is a split point, so either stays in the text before the first project heading).
- **The date can come from the next line.** The heading regex's `\s*` crosses newlines, so a `(…)` at the start of the line after the heading can become the date.
- **A field can come from the next line.** The `\s*` after `**Stack:**` and `**Status:**` crosses newlines, so a label with nothing after it on its line takes the next non-blank line. `StackFromNextLine` shows it: for `**Stack:**` followed by a line `**Status:** live`, the stack is `**Status:** live`.
- **A blank run after `**What:**` can empty the description.** When no `\n\n` or `\n**` follows the text after the `**What:**` label but one lies inside the whitespace right after the label, the description is `""`.

## Model

| member | source | states |
|---|---|---|
| Text.Strip | server.py:35 | the result is a slice of the input surrounded by whitespace only, with no whitespace at either end; it is empty exactly when the input is all whitespace |
| Text.StripLine | server.py:54-64 | a text that opens with a non-blank loses only its trailing whitespace to `str.strip()` |
| Text.Split | server.py:181 | the pieces joined with the separator give back the input, no piece contains the separator, and there is always at least one piece |
| Text.FindFrom | server.py:47 | the first occurrence of the pattern at or after the start, or `None` exactly when there is no occurrence there |
| Text.Take | server.py:206-215 | `xs[:n]`: a prefix of length `min(n, len)`, used for `msg[:120]`, `msg[:200]` and the eight entries `logs` can hold |
| Text.LastN | server.py:181 | `[-50:]`: the last `n` elements in order, or all of them when there are fewer |
| Text.Lower | server.py:194 | lower-casing keeps the length, moves A-Z 32 code points up to a-z, turns the Kelvin sign into `k`, leaves no upper-case ASCII letter, and changes nothing else |
| Text.LowerIdempotent | server.py:194 | lower-casing twice is lower-casing once |
| Text.LowerSameUpToCase | server.py:194 | strings that differ, character by character, only by an upper/lower-case pair (A-Z against a-z, or the Kelvin sign against `k`) lower-case to the same string |
| Text.LowerKeepsOccurrence | server.py:194-204 | an occurrence of a pattern in the line, in any case, is an occurrence of the lower-cased pattern in the lower-cased line |
| Text.LexLessTotal | server.py:153 | string order is total, so `sorted(...)[-1]` is well defined |
| Text.LexLessTransitive | server.py:153 | string order is transitive |
| Text.LexLessIrreflexive | server.py:153 | no name is smaller than itself, so the greatest name is unique |
| LogStatus.LogNames | server.py:153 | keeps exactly the names that match `moltbot-*.log` |
| LogStatus.Newest | server.py:153 | the chosen name is in the list and every other name is smaller |
| LogStatus.Target | server.py:149-157 | the target is the greatest name matching `moltbot-*.log`; it is `None` exactly when the directory is missing or holds no such name |
| LogStatus.NonBlankMembers | server.py:181 | the filter keeps a line exactly when its strip is non-empty |
| LogStatus.NonBlankConcat | server.py:181 | the filter works line by line: filtering a concatenation concatenates the filtered parts, so order and repeats are kept |
| LogStatus.NonBlankOne | server.py:181 | a single line is kept exactly when its strip is non-empty |
| LogStatus.Window | server.py:181 | the window is the last `min(50, n)` of the `n` non-blank pieces, in order |
| LogStatus.WindowClean | server.py:181 | every line of the window is one of the pieces and is not blank |
| LogStatus.LinesClean | server.py:181 | no line of the window of a chunk holds a newline or is blank |
| LogStatus.EndPos | server.py:175-177 | the offset after the read is the content's end and never moves backwards |
| LogStatus.ExtractMessage | server.py:189-192 | matches exactly when a `[` is followed by a `]` and then by whitespace; the message is the text after the whitespace run that starts at the first whitespace after the first `]` after the first `[` |
| LogStatus.Classify | server.py:194-204 | the result is the state/activity of the first keyword rule in source order that fires on the lower-cased line, or none when no rule fires |
| LogStatus.RulesSpelledOut | server.py:195-204 | each rule fires exactly when the line holds one of its substrings, the coding rule also needing a code-file extension |
| LogStatus.KindOf | server.py:210-214 | "error" exactly when the line holds "error"; "success" exactly when it does not and holds success, complete or shipped; "info" otherwise |
| LogStatus.CaseIgnored | server.py:194 | lines that differ, character by character, only by an upper/lower-case pair get the same classification (state and activity) and the same entry type |
| LogStatus.UpperCaseKeywordFires | server.py:194-200 | a `GIT COMMIT` written in capitals is seen by the lower-case keyword test |
| LogStatus.Summary | server.py:183-215 | `logs` is exactly the entries of the first `min(8, n)` of the `n` bracket-matching lines, newest first; each message is at most 200 characters and `lastAction` at most 120 |
| LogStatus.ScanLines | server.py:183-215 | the newest-to-oldest loop yields exactly `Summary` of the window |
| LogStatus.MatchesFromLines | server.py:188-192 | every hit comes from a line of the window |
| LogStatus.MatchesNewest | server.py:188 | a line appended to the log becomes the first hit the loop sees |
| LogStatus.UnmatchedLineIgnored | server.py:189-191 | a line without a bracket match changes nothing, wherever it stands |
| LogStatus.NewestLineLeads | server.py:206-215 | the newest bracket-matching line heads `logs` with its 200-character message and its type, and gives the 120-character `lastAction` unless that reads as the placeholder |
| LogStatus.OldestLineSetsState | server.py:188-204 | a bracket-matching line on which a rule fires, with no older line that a rule classifies, decides state and activity whatever newer lines follow |
| LogStatus.OldestCodingLineWins | server.py:188-204 | a concrete window whose oldest line writes a `.py` file reads "coding"/"Writing code" whatever newer lines follow |
| LogStatus.CodingLineClassified | server.py:189-204 | that line matches the bracket pattern and is classified as writing code |
| LogStatus.NoRuleStaysIdle | server.py:183-184 | when no rule fires on any bracket-matching line, the state stays "sleeping"/"Idle" |
| LogStatus.NoMatchIsQuiet | server.py:183-186 | with no bracket-matching line the snapshot is sleeping, "Idle", "No recent activity", no logs |
| LogStatus.FirstActionBound | server.py:206-207 | `lastAction` is at most 120 characters |
| LogStatus.FileCursor | server.py:168-177 | after `_parse_log` the cursor names the file; a new file starts at 0 and ends at the content's end after a read; the same file's offset never decreases |
| LogStatus.FileStatus | server.py:173-230 | a failed read gives `_idle("Error reading logs")`; an age above 30 s forces sleeping/"Idle"; otherwise the summary of the chunk read from the cursor; the log bounds hold |
| LogStatus.PollCursor | server.py:148-177 | with no log file the cursor is untouched; otherwise it names the newest `moltbot-*.log`, its offset never decreases on the same file, a file it did not name before ends at the content's end after a read and at 0 after a failed one, and a successful read from within the content leaves the offset at the content's end |
| LogStatus.PollStatus | server.py:148-165 | a missing directory gives "No logs found", no log file gives "Idle", otherwise the target file's snapshot; only a successful read can be anything but sleeping |
| LogStatus.CursorAfterPoll | server.py:168-177 | a change of file reads as from a fresh cursor at 0; a successful read leaves the offset at the content's end; a failed one leaves it where the read started |
| LogStatus.StalenessOverride | server.py:217-223 | an age above 30 s replaces state and activity and nothing else; an age of at most 30 s changes nothing |
| LogStatus.IncrementalRead | server.py:173-181 | after a successful read, the next poll summarises exactly the text appended since, and the offset moves to the new end |
| LogStatus.SecondPollQuiet | server.py:173-186 | a second poll of a file that received nothing new reports sleeping, "Idle", "No recent activity" and no logs |
| Catalog.NextSplit | server.py:31 | the first position at or after the start where `(?=^## \w)` holds |
| Catalog.Sections | server.py:31 | the pieces concatenate to the text and start exactly at the successive split positions; every piece after the first opens with `## ` and a word character; no piece holds a split inside it |
| Catalog.Header | server.py:39-44 | on a stripped section, the heading matches exactly when the text starts with `## ` and a non-newline; name and date are single-line |
| Catalog.HeaderAt | server.py:39-44 | when `m` is the first place the lazy name can stop, the name is the strip of the text from after `## ` to `m` and the date is the one found at `m` |
| Catalog.HeaderFromAt | server.py:39 | the lazy name, tried from `n` on, stops at the first place it can and keeps the date found there |
| Catalog.HeaderNameEnd | server.py:39 | on a heading line the lazy name always has a first place to stop, no later than the end of the line |
| Catalog.HeaderParenthesised | server.py:39-44 | a non-empty date stands between a `(` and a `)` after which only blanks remain on the line |
| Catalog.DateGroup | server.py:39 | a date found is non-empty and single-line |
| Catalog.DateGroupParenthesised | server.py:39 | a date found stands between a `(` and a `)` after which only blanks remain on the line |
| Catalog.DateGroupAt | server.py:39-44 | after the blanks, a `(` and a first `)` at `e` that closes the date give the text between them as the date |
| Catalog.DateGroupNone | server.py:39-44 | without a `(` after the blanks, or without a `)` that closes the date, there is no date |
| Catalog.DateFromAt | server.py:39 | the lazy date stops at the first `)` at or after the one tried that ends its line, and is the text up to it |
| Catalog.DateFromClose | server.py:39 | a date found ends at the first such `)` |
| Catalog.DateFromNone | server.py:39 | with no such `)` the date group fails |
| Catalog.UrlAt | server.py:47 | `https?://\S+` matches exactly when a scheme and a non-blank stand at the position; the capture is then a URL without whitespace running to the first whitespace or the end |
| Catalog.RepoFrom | server.py:46-49 | the repo is `""` or an `http://`/`https://` URL without whitespace |
| Catalog.RepoFromAt | server.py:46-49 | the repo is the URL after the first `**Repo:**` label (and its blanks) that has one |
| Catalog.RepoFromAbsent | server.py:46-49 | when no label has a URL after it, the repo is `""` |
| Catalog.RepoStripped | server.py:49 | stripping the captured URL leaves it as it is |
| Catalog.NextEnd | server.py:52 | the first `\n\n` or `\n**` at or after the start, or the end of the text when there is none |
| Catalog.WhatFrom | server.py:51-54 | the description holds no blank line and no line opening with `**`; `""` when no `**What:**` label occurs; its value in the other cases is given by `WhatAtFirst`, `WhatStripped` and `WhatLastField` |
| Catalog.WhatAtFirst | server.py:51-54 | at the first label, the description runs from the first non-blank to the last non-blank before the first end after it; with no end after it but one inside the blanks, the description is `""` |
| Catalog.WhatLastField | server.py:51-54 | when no `\n\n` or `\n**` follows the first `**What:**` (What as the last field), the search fails and the description stays `""` |
| Catalog.WhatFromNoEnd | server.py:52 | with no end past the search start and a label, the search fails at every label and gives `""` |
| Catalog.WhatAtNoEnd | server.py:52 | a label with no end after it fails and the search goes on past it |
| Catalog.WhatStripped | server.py:52-54 | the description is `str.strip()` of the text from the first non-blank to the first end |
| Catalog.LineFieldAtTag | server.py:56-64 | the field is what the capture gives after the first occurrence of its label: the rest of the line on which the text resumes after the label and its whitespace, which can be a later line |
| Catalog.LineFieldAtFirst | server.py:56-64 | at the first label, the field runs from the first non-blank after it, possibly on a later line, to the last non-blank of the line that non-blank is on; `""` when only blanks follow |
| Catalog.RestOfLineValue | server.py:57-64 | that value is `str.strip()` of the rest of the line the capture starts on, and is non-empty |
| Catalog.LineFieldAbsent | server.py:56-64 | without the label the field is `""` |
| Catalog.LineFieldOneLine | server.py:57-64 | stack and status are single-line |
| Catalog.SectionRecordShape | server.py:34-73 | a piece gives a record exactly when, stripped, it starts with `## ` and a non-newline; the record's fields then have the shapes above |
| Catalog.OpeningParses | server.py:31-44 | every piece opened by `## ` and a word character gives a record |
| Catalog.OneRecordPerSection | server.py:31-75 | the result is the first piece's record, if any, followed by exactly one record per section in document order, duplicates kept |
| Catalog.ParseSections | server.py:34-73 | the loop over the sections yields, in order, exactly the record of every section whose heading matches |
| Catalog.ParsePublished | server.py:24-75 | the loop yields exactly `Published` of the document; no document gives `[]` |
| Catalog.CollectConcat | server.py:34-73 | the records of consecutive runs of sections are the runs' records in order |
| Catalog.CollectAll | server.py:34-73 | when every section gives a record, record `k` is section `k`'s |
| CatalogRoundTrip.HeaderIs | server.py:39-44 | a heading line laid out as `## name (date)` reads back as that name and date |
| CatalogRoundTrip.HeaderRoundTrip | server.py:39-44 | `## name (date)` followed by the end or a newline reads back as the name and the date, for a one-line name without `(` or outer blanks and a one-line date without `)` |
| CatalogRoundTrip.LineFieldIs | server.py:56-64 | after the first label, a blank and a value alone on the rest of its line, the field is the value |
| CatalogRoundTrip.LineFieldRoundTrip | server.py:56-64 | `**Stack:** value` or `**Status:** value` on its own line, after the first such label, reads back as the value |
| CatalogRoundTrip.StackFromNextLine | server.py:56-59 | an empty `**Stack:**` followed by the line `**Status:** live` gives the stack `**Status:** live` |
| CatalogRoundTrip.RepoIs | server.py:46-49 | after the first `**Repo:**`, a blank and a URL up to whitespace or the end, the repo is the URL |
| CatalogRoundTrip.RepoRoundTrip | server.py:46-49 | `**Repo:** url`, after the first such label and followed by whitespace or the end, reads back as the URL |
| CatalogRoundTrip.WhatIs | server.py:51-54 | after the first `**What:**`, a blank and a description closed by an end, the description reads back |
| CatalogRoundTrip.WhatRoundTrip | server.py:51-54 | `**What:** description` closed by a blank line or a line opening with `**` reads back as the description |
| Stats.CommitsOf | server.py:86-95 | an entry adds its commit count exactly when it is a directory with `.git` and the count succeeded, else 0 |
| Stats.LocOf | server.py:86-104 | an entry adds its line count exactly when it is a directory with `.git` and the count succeeded, else 0 |
| Stats.GitStats | server.py:78-107 | a missing projects directory gives 0/0; otherwise the loop yields exactly the totals over the entries |
| Stats.TotalsConcat | server.py:85-106 | the totals split over consecutive runs of entries |
| Stats.SkippedEntry | server.py:86-87 | an entry that is not a repository, or whose probes both failed, changes neither total |
| Stats.TotalsPermutation | server.py:85 | the totals do not depend on the order in which the directory is listed |
| Stats.EachCountIncluded | server.py:89-104 | every successful count is included in full in its total |
| Stats.NothingCounted | server.py:85-107 | with no successful count, both totals are 0 |
| Dashboard.Collected | server.py:141-142 | a refill holds the totals and the number of parsed records; every count that succeeded is included in full in its total; both totals are 0 for a missing directory or when no count succeeded; a missing journal gives 0 projects |
| Dashboard.CacheAfter | server.py:138-144 | after a call the cache is filled, and what it serves was computed at most 30 seconds before `now` |
| Dashboard.RecomputedOnlyWhenExpired | server.py:140-143 | a cache that holds a value no more than 30 s old is served unchanged; otherwise it is refilled and stamped with `now` |
| Dashboard.ServedWithinWindow | server.py:140-144 | within 30 s of a refill, whatever the repositories and the journal now say, exactly the refilled value is served |
| Dashboard.RefilledAfterWindow | server.py:140-143 | more than 30 s after the stamp the next call computes the stats afresh |
| Dashboard.CollectedIgnoresOrder | server.py:85 | the served stats do not depend on the directory listing order |
| Dashboard.Handler.constructor | server.py:112-116 | the class attributes start as no file at offset 0 and an empty cache stamped 0 |
| Dashboard.Handler.CachedStats | server.py:138-144 | the cache fields move as `CacheAfter` says and the returned value is what the cache now holds |
| Dashboard.Handler.BuildStatus | server.py:148-157 | the cursor fields move as `PollCursor` says and the snapshot is `PollStatus` of the old cursor |
| Dashboard.Handler.ParseLog | server.py:167-230 | the cursor fields move as `FileCursor` says and the snapshot is `FileStatus` of the old cursor |

## Left out

- HTTP plumbing (`do_GET` routing, `_json`, `log_message`, `main`, static files) is I/O only and is not part of this model.
- File-system and clock calls are parameters: `exists`, `glob`, `read_text`, `open`/`seek`/`read`/`tell`, `getmtime` and `time.time()`. Times and ages are real numbers, and floating-point rounding is not modelled.
- The `git rev-list --count` and `git ls-files | xargs wc -l` subprocesses, and the parsing of their output, are foreign calls. Each repository's two results are inputs of type `Option<nat>`, with `None` for any failure.
- The file's content is the text as Python's text-mode reader returns it, with newlines already translated. The `tell()` offset is a character index. For content shorter than the offset (a file that shrank), the chunk is empty and the offset stays where it was.
- Python's `\w`, `\b` and `str.lower()` are modelled for ASCII only, plus the KELVIN SIGN, which lowers to `k`. Other non-ASCII letters are not word characters, and their case is left as is.
- Only the specific regex searches of the core are modelled, not general regex semantics.
- Exceptions raised by `parse_published` inside `_cached_stats` (an unreadable journal) are not modelled; the journal is either present with its text or absent.
- The class-level fields are modelled as the fields of one `Handler` object, shared by every request. Concurrent requests are not modelled.
- `dashboard.js` (the browser UI) is not part of this model.
