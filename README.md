# last_changelog — a Dafny model

`last_changelog.py` prints the most recent entry of a project's `CHANGELOG.md`.
It reads the whole file, looks for the first `"\n## "` (a second-level Markdown
heading at the start of a line), keeps the text before it and strips the
surrounding whitespace. This project models that computation as pure functions
and proves what it yields.

- `PyStr.dfy` (module `PyStr`): the three Python `str` operations the script
  uses. `Find` is `str.find` and returns the first index of a pattern, or -1.
  `PySliceTo` is the slice `s[:stop]`, where a negative bound counts from the end.
  `Strip` is `str.strip()` with no argument. `Strip` is specified by the
  predicate `IsStripOf`, and `StripIsUnique` shows that this predicate
  determines the result.
- `LastChangelog.dfy` (module `LastChangelog`): `LastEntry`, the composition
  `Strip(PySliceTo(s, Find(s, "\n## ")))`, and the lemmas about it.

One would expect a changelog with no `"\n## "` to yield its whole text,
stripped; the code does not, and the model follows the code. The code slices
with the -1 that `find` returns, and `s[:-1]` drops the final character. So
`"abc"` gives `"ab"` rather than `Strip("abc")` (`NoSeparatorExample`). A
changelog without a separator that ends in whitespace, such as a final newline,
is unaffected: the dropped character is one `strip` would remove anyway
(`EndsInSpaceUnaffected`). The script also reads a fixed file name,
`CHANGELOG.md`, and takes no path argument.

A `## ` heading at index 0 is not a boundary, because no newline precedes it
(`LeadingHeadingIsNotABoundary`).

## Model

| member | source | states |
|---|---|---|
| PyStr.FindFrom | last_changelog.py:6 | the result is -1 or an occurrence at or after `from`; no occurrence lies between `from` and the result; -1 only when there is no occurrence at or after `from` |
| PyStr.Find | last_changelog.py:6 | `find` returns an index where the pattern occurs, and no earlier index matches; it returns -1 exactly when the pattern occurs nowhere |
| PyStr.OccursCharAt | last_changelog.py:6 | each character of an occurrence agrees with the pattern |
| PyStr.OccursInPiece | last_changelog.py:6 | an occurrence inside a contiguous piece of `s` is an occurrence in `s` at the shifted index |
| PyStr.FindIsFirstOccurrence | last_changelog.py:6 | an occurrence with no earlier occurrence is the index `find` returns |
| PyStr.PySliceTo | last_changelog.py:7 | `s[:stop]` is a prefix of `s`: `s[..stop]` for 0 <= stop <= len, `s[..len+stop]` for -len <= stop < 0, all of `s` above len, empty below -len |
| PyStr.NegativeStopCountsFromEnd | last_changelog.py:7 | `s[:stop-len]` equals `s[:stop]` for 0 <= stop < len |
| PyStr.LeadingSpace | last_changelog.py:7 | counts the leading whitespace: every character before the count is whitespace, and the one at the count is not |
| PyStr.TrailingEnd | last_changelog.py:7 | every character from the returned end onwards is whitespace, and the one just before it is not |
| PyStr.Strip | last_changelog.py:7 | `strip()` yields a contiguous piece of `s` with only whitespace around it and no whitespace at either end |
| PyStr.StripIsUnique | last_changelog.py:7 | two results that both satisfy the stripping specification are equal |
| PyStr.StripKeepsTrimmed | last_changelog.py:7 | a string with no whitespace at either end is unchanged by `strip()` |
| PyStr.StripIdempotent | last_changelog.py:7 | stripping twice equals stripping once |
| LastChangelog.LastEntry | last_changelog.py:6-7 | the entry has no whitespace at either end |
| LastChangelog.CutAtFirstSeparator | last_changelog.py:6-7 | if `"\n## "` first occurs at p, the entry is the stripped text `s[..p]` |
| LastChangelog.WithoutSeparatorDropsFinalChar | last_changelog.py:6-7 | with no `"\n## "` anywhere, empty input yields empty output, and otherwise the entry is the text minus its final character, stripped |
| LastChangelog.StripDropsTrailingSpace | last_changelog.py:7 | removing one trailing whitespace character before `strip()` does not change its result |
| LastChangelog.EndsInSpaceUnaffected | last_changelog.py:6-7 | with no `"\n## "` anywhere and the text empty or ending in whitespace, the entry is the whole text, stripped |
| LastChangelog.LastEntryIsTrimmed | last_changelog.py:7 | the entry has no outer whitespace, and stripping it again changes nothing |
| LastChangelog.LastEntryLiesBeforeSeparators | last_changelog.py:6-7 | the entry is a contiguous substring of the input that ends at or before every occurrence of `"\n## "` |
| LastChangelog.LastEntryHasNoSeparator | last_changelog.py:6-7 | the entry never contains `"\n## "` |
| LastChangelog.LeadingHeadingIsNotABoundary | last_changelog.py:6 | for text that starts with `## `, `find` does not return 0 and the entry still begins with `##` |
| LastChangelog.EntryBeforeFirstHeading | last_changelog.py:6-7 | for a title with no newline except possibly at its end, followed by `"\n## "` and anything, the entry is the stripped title |
| LastChangelog.NoSeparatorExample | last_changelog.py:6-7 | `"abc"` yields `"ab"`, which differs from `"abc"` stripped, and `""` yields `""` |
| LastChangelog.TitleBeforeFirstHeadingExample | last_changelog.py:6-7 | `"# MyProj\n"`, then `"\n## "` and any remaining text, yields `"# MyProj"` |

## Left out

- Opening and reading `CHANGELOG.md` (last_changelog.py:4-5) is file I/O. The argument of `LastEntry` is the text as Python's text-mode read returns it: decoded with the locale's encoding, with `"\r\n"` and a lone `"\r"` already translated to `"\n"`. A CRLF changelog therefore does contain `"\n## "` by the time it is searched; the decoding and newline translation themselves are not modelled.
- Writing the entry to standard output (last_changelog.py:8) is I/O. `LastEntry` returns the text that would be written.
- The `re` import (last_changelog.py:1) is unused.
- PyStr.IsSpace: `str.strip()` removes every character for which Python's `str.isspace` holds. The model uses only space, tab, line feed, carriage return, vertical tab and form feed. It leaves out `\x1c`–`\x1f`, `\x85`, no-break space and the other Unicode whitespace from Python's character tables.
- Python strings are sequences of code points. The model uses Dafny `char`, and does not model decoding the file.
