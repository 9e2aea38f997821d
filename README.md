# Commit-message cleanup and README project scan, in Dafny

This project models the deterministic core of two helper scripts:

* `generate_message.py` asks a local language model for a one-line commit
  header and post-processes the reply. The reply is trimmed and cut at the
  first "problem" character (`. `, `!`, `?`, quotes, brackets, line breaks).
  One boilerplate opening ("voici", "commit", "- ", ...) is stripped. The text
  is capped at 60 characters. It is kept only when, lower-cased, it starts with
  a commit type (`feat`, `fix`, ..., `perf`) followed by `(` or `:` and is at
  least 8 characters long. Otherwise a canned message is chosen from the
  `git status --short` text by a first-match chain (`commit_message.dfy`).
* `generate_readme.py` gathers a project's code for a README prompt. The
  model covers the default ignore patterns plus the kept `.gitignore` lines,
  the ignore test (directory patterns, `fnmatch` on the relative path and on
  the base name), and the choice of files to read (known endings, special
  names, never `README.md`). It also covers the 25000-character size gate
  with its placeholder note, the TODO/FIXME harvest joined by newlines, and
  the context size picked from the machine's memory (`readme_scan.dfy`).

`pystr.dfy` gives the Python `str` operations both scripts use as Dafny
functions with contracts. `glob.dfy` gives `fnmatch` reduced to `*` and `?`.

Where the code does something step by step, the model is a method with loop
invariants: the cut loop, the prefix loop, the `.gitignore` loop, the pattern
loop of `is_ignored`, the file loop and the line loop of the scan. Each method
is proved equal to a specification function. The promises of the scripts are
lemmas about those functions.

The message generator as written uses a 60-character cap, a single request
to the model and a fixed `if`/`elif` fallback chain; the model follows that
code. The string literals are kept exactly as the code
has them, including `". css"`, `". js"`, `". ts"` with their space and the
double spaces in `"style:  update styles"` and `"refactor:  improve code"`.

## Model

| member | source | states |
|---|---|---|
| CommitMessage.Finalize | generate_message.py:68-114 | The whole post-reply computation equals `Finalized`, and the result always has 8 to 60 characters and a valid type opening. |
| CommitMessage.CutAtProblemChars | generate_message.py:72-74 | The cut loop computes `Cut`, and afterwards none of the eleven problem strings occurs in the message. |
| CommitMessage.CutUpToShrinks | generate_message.py:72-74 | After k rounds the message is a substring of the input. It holds none of the first k problem strings, because a later round cannot bring an earlier one back. |
| CommitMessage.CutAtShrinks | generate_message.py:73-74 | One round yields a substring of its input that no longer contains the cut string. |
| CommitMessage.StripBoilerplatePrefix | generate_message.py:82-86 | The prefix loop, testing every opening against the lower-cased text computed once before it, computes `StripBoilerplate`, a substring of its input. |
| CommitMessage.AtMostOneBadStart | generate_message.py:77-86 | A text starts with at most one of the boilerplate openings, so the loop strips at most one. |
| CommitMessage.BadStartsPrefixFree | generate_message.py:77-80 | No boilerplate opening is a prefix of another. |
| CommitMessage.FirstBadStart | generate_message.py:83-84 | Returns the first opening the lower-cased text starts with, or -1 when it starts with none. |
| CommitMessage.AfterPrefix | generate_message.py:85-86 | What remains after cutting an opening and its `:`/`-`/`*` leaders is a substring of the text. |
| CommitMessage.Cap | generate_message.py:89-90 | The result has at most 60 characters and is a substring of its input; a text within the cap is unchanged. |
| CommitMessage.HasTypePrefixBy | generate_message.py:93-94 | A text opening with an allowed type and `(` or `:` in lower case passes the type check. |
| CommitMessage.HasTypePrefix | generate_message.py:93-94 | The type check: lower-cased, the text starts with an allowed type followed by `(` or `:`. A text passing it has at least 4 characters. |
| CommitMessage.Acceptable | generate_message.py:93-97 | The text is kept when it passes the type check and has at least 8 characters. A kept text contains a `:` or a `(`, since lower-casing changes only letters. |
| CommitMessage.FallbackIsFirstMatch | generate_message.py:97-112 | The `if`/`elif` chain equals the first-match reading of the rule table, with `chore: update files` as the default. |
| CommitMessage.Fallback | generate_message.py:97-112 | The `if`/`elif` chain over the status text. Every message it picks has 8 to 60 characters. |
| CommitMessage.FirstMatch | generate_message.py:99-112 | Returns the default when no rule fires, the first firing rule's message otherwise, and always one of the two. |
| CommitMessage.RulesFireAsChain | generate_message.py:99-110 | Each table rule fires exactly on the `in` tests of the matching branch of the chain. |
| CommitMessage.FallbackIsCanned | generate_message.py:97-112 | The fallback is always one of the seven canned messages. |
| CommitMessage.CannedAcceptable | generate_message.py:100-112 | Every canned message passes the type check, is at least 8 characters long and fits the 60-character cap. |
| CommitMessage.FallbackAcceptable | generate_message.py:97-112 | Whatever the status text, the fallback passes the validity test and fits the cap. |
| CommitMessage.CannedScope | generate_message.py:100-112 | Only `fix(ui): update index` among the canned messages carries a `(`. |
| CommitMessage.CleanedIsSubstring | generate_message.py:68-90 | The cleaned reply is a contiguous substring of the trimmed reply. |
| CommitMessage.CleanedFreeOfProblemChars | generate_message.py:72-90 | No problem string survives the prefix strip and the cap. |
| CommitMessage.CleanedHasNoParen | generate_message.py:72-90 | Text kept from the model never contains `(`. |
| CommitMessage.CleanedHasNoScope | generate_message.py:72-94 | Text kept from the model can pass the type check only in its `type:` form, never as `type(`. |
| CommitMessage.ScopeOnlyFromFallback | generate_message.py:72-112 | A result containing `(` is the canned `fix(ui): update index`. |
| CommitMessage.FinalizedWellFormed | generate_message.py:92-114 | The result is never empty: it always passes the validity test and has 8 to 60 characters. |
| CommitMessage.FinalizedChoice | generate_message.py:96-114 | An acceptable cleaned reply is returned unchanged. Otherwise the reply does not matter and only the status text decides. |
| ReadmeScan.OptimalCtx | generate_readme.py:34-41 | The context is 4096 without `psutil` or under 10 GiB, 16384 from 10 GiB to under 20 GiB, and 32768 from 20 GiB, each as an if-and-only-if. |
| ReadmeScan.OptimalCtxMonotone | generate_readme.py:36-41 | More memory never yields a smaller context, and the default is the smallest. |
| ReadmeScan.ParseGitignore | generate_readme.py:46-59 | The patterns are the ten defaults followed by the kept `.gitignore` lines, in order, or only the defaults when there is no file. |
| ReadmeScan.KeptPatternSource | generate_readme.py:51-54 | Every added pattern is the stripped form of a non-empty line of the file that does not start with `#`. |
| ReadmeScan.KeptLineAdded | generate_readme.py:51-54 | Every such line is added in stripped form. |
| ReadmeScan.KeptPatternsWellFormed | generate_readme.py:52-54 | Added patterns are non-empty, do not start with `#` and have no leading or trailing whitespace. |
| ReadmeScan.IsIgnored | generate_readme.py:61-69 | The loop with early return answers true exactly when some pattern matches: as a directory pattern, on the relative path or on the base name. |
| ReadmeScan.BaseName | generate_readme.py:67 | The base name is a `/`-free ending of the path that follows a `/` or is the whole path. |
| ReadmeScan.IgnoredMonotone | generate_readme.py:64-69 | Adding patterns never un-ignores a path; only which patterns are present matters. |
| ReadmeScan.LiteralPatternMatches | generate_readme.py:67-68 | A pattern without wildcards or trailing `/` ignores the path equal to it and every file so named. |
| ReadmeScan.StarPatternMatches | generate_readme.py:67-68 | `*` followed by a plain ending ignores exactly the paths with that ending. |
| ReadmeScan.DirPatternIff | generate_readme.py:65-68 | `name/` ignores exactly the paths with a component `name`. |
| ReadmeScan.NoExtensionEndsInD | generate_readme.py:17-23 | No entry of the ending list finishes with `d`, so a name ending in `d` has no known ending. |
| ReadmeScan.IsCandidate | generate_readme.py:85-87 | The eligibility test: the name has one of the known endings or is `Dockerfile`, `Makefile` or `Gemfile`, and is not `README.md`. |
| ReadmeScan.CandidateShape | generate_readme.py:85-87 | Of the eligibility test (a known ending or a special name, and not `README.md`): every special name is eligible, and apart from `Gemfile` every eligible name has a known ending. |
| ReadmeScan.OutputFileNeverCandidate | generate_readme.py:85-87 | `README.md` has no known ending and is not a special name, so the generated file is never read back. |
| ReadmeScan.ProcessedIff | generate_readme.py:80-90 | A file contributes exactly when the walk yields it, no pattern ignores it, it is eligible and it could be read. |
| ReadmeScan.ScanProject | generate_readme.py:71-114 | Given the files of the walk, each named by the last component of its path, the file loop yields the code text, the newline-joined TODO list, the scanned count and the truncated names of the contributing files, in walk order. |
| ReadmeScan.ReadOne | generate_readme.py:89-108 | A read file adds its header, then its content when under 25000 characters or the size note otherwise. It adds one to the count or its name to the truncated list, and adds its TODO entries. |
| ReadmeScan.HarvestTodos | generate_readme.py:105-108 | The line loop appends one entry per TODO/FIXME line, in line order. |
| ReadmeScan.LineTodos | generate_readme.py:105-108 | Entry k is `- [name] ` followed by the cleaned k-th matching line, and there is one entry per matching line. |
| ReadmeScan.TodoLinesIff | generate_readme.py:105-106 | A line is harvested exactly when it is one of the file's lines and mentions TODO or FIXME. |
| ReadmeScan.TodoText | generate_readme.py:107 | The cleaned TODO text has no `#` and no leading or trailing whitespace. It is the line with characters dropped and the rest kept in order, and every character other than whitespace, `/` and `#` occurs in it exactly as often as in the line, so only whitespace, `/` and `#` can be dropped. |
| ReadmeScan.TodoTextPlain | generate_readme.py:107 | A TODO line without `/` and `#` is only trimmed. |
| ReadmeScan.TodoEntry | generate_readme.py:108 | The harvested entry: `- [`, the file name, `] `, then the cleaned line. |
| ReadmeScan.ScannedPlusTruncated | generate_readme.py:96-103 | Every read file is either counted as scanned or named as truncated, never both. |
| ReadmeScan.Header | generate_readme.py:95 | The separator that opens each read file in the code text, with its relative path. |
| ReadmeScan.Placeholder | generate_readme.py:102 | The note that stands for a file of `size` characters or more, with the size in decimal. |
| ReadmeScan.FileCode | generate_readme.py:95-103 | What one read file adds to the code text starts with its header. A small file adds less than the header plus 25000 characters. |
| ReadmeScan.FileCodeIncluded | generate_readme.py:95-102 | The code text contains the header and body of every contributing file. |
| ReadmeScan.TodoFound | generate_readme.py:105-108 | The entry `- [name] text` for every TODO/FIXME line of every read file is in the harvest, even when the file is too large to include. |
| ReadmeScan.TodoSource | generate_readme.py:105-108 | Each entry of the harvest is the entry built from some TODO/FIXME line of some read file, and the returned indexes name that file and line. |
| ReadmeScan.TodosEmptyIff | generate_readme.py:105-114 | The joined TODO text is empty exactly when no line of any read file mentions TODO or FIXME. |
| ReadmeScan.KeepIff | generate_readme.py:80-87 | The walk's filter keeps a file exactly when it is one of the files and is accepted. |
| PyStr.Strip | generate_message.py:68 | `strip()` yields a substring of the text, no longer than it, that neither starts nor ends with whitespace. |
| PyStr.StripExact | generate_message.py:68 | What `strip()` removes is whitespace only: the result sits in the text with nothing but whitespace before and after it. |
| PyStr.Before | generate_message.py:74 | `split(pat)[0]` is the prefix that ends at the first occurrence of `pat`, with no occurrence starting inside it, or the whole text when there is none. |
| PyStr.LStrip | generate_message.py:86 | `lstrip(chars)` removes exactly the leading run of those characters. |
| PyStr.RStrip | generate_readme.py:66 | `rstrip(chars)` removes exactly the trailing run of those characters. |
| PyStr.Split | generate_readme.py:66 | `split(c)` yields at least one piece, and no piece contains `c`. |
| PyStr.JoinSplit | generate_readme.py:66 | Joining the pieces of `split(c)` with `c` gives back the text. |
| PyStr.JoinEmptyIff | generate_readme.py:114 | A join of non-empty pieces is empty exactly when there are no pieces. |
| PyStr.JoinEnds | generate_readme.py:114 | `sep.join(parts)` of one or more parts starts with the first part and ends with the last. |
| PyStr.RemoveAll | generate_readme.py:107 | `replace(pat, '')` never lengthens the text and removes a one-character pattern entirely. |
| PyStr.RemoveAllAt | generate_readme.py:107 | `replace(pat, '')` is `''.join(s.split(pat))`: when the first occurrence of `pat` starts at `n`, the result is `s[:n]` followed by the removal applied to the text after that occurrence. |
| PyStr.RemoveAllAbsent | generate_readme.py:107 | Text without `pat` comes back unchanged; with `RemoveAllAt` this fixes the result for every input. |
| PyStr.RemoveAllKeeps | generate_readme.py:107 | `replace(pat, '')` keeps every occurrence of every character not in `pat`. |
| PyStr.RemoveAllSubsequence | generate_readme.py:107 | `replace(pat, '')` only drops characters and keeps the rest in order. |
| PyStr.StripFixed | generate_readme.py:107 | Text that neither starts nor ends with whitespace is its own `strip()`, so stripping twice is stripping once. |
| PyStr.StripKeepsText | generate_readme.py:107 | `strip()` keeps every occurrence of every non-whitespace character. |
| PyStr.StripSubsequence | generate_readme.py:107 | `strip()` only drops characters and keeps the rest in order. |
| PyStr.SubsequenceTrans | generate_readme.py:107 | Cleaning in stages keeps order: a subsequence of a subsequence is a subsequence of the original. |
| PyStr.Lower | generate_message.py:82 | `lower()` keeps the length and lowers each ASCII letter. |
| PyStr.NatToStringRoundTrip | generate_readme.py:102 | The decimal text of the size in the placeholder reads back as the size. |
| PyStr.NatToString | generate_readme.py:102 | `str(size)` is a non-empty string of decimal digits with no leading zero. |
| PyStr.ContainsTrans | generate_message.py:73 | A substring of a substring is a substring, which is what lets each cleanup stage keep `in` facts. |
| PyStr.NotContainsInherited | generate_message.py:73 | A string lacking `pat` has no substring containing `pat`. |
| Glob.LiteralMatch | generate_readme.py:67 | A wildcard-free pattern matches only the identical name. |
| Glob.StarMatchesAll | generate_readme.py:67 | `*` matches every name. |
| Glob.StarSuffixMatch | generate_readme.py:67 | `*` plus a wildcard-free ending matches exactly the names with that ending. |
| Glob.Match | generate_readme.py:67 | `fnmatch` with `*` and `?` over the whole name. A pattern without `*` matches only names of its own length. |

## Left out

- Calls to the language model (`ollama.chat`) are left out; the model's reply text and the `git status --short` text are parameters of `CommitMessage.Finalize`.
- Running `git`, `argparse`, `input()`, printing, `sys.exit` and the `except` branch that exits on any error are left out: they are I/O or process control.
- The prompt templates and the model options (stop strings, temperature, context sizes passed to the model) are left out; they affect only what the model returns.
- `os.walk` and file reading are left out. The scan receives the files the walk yields, in walk order, each with its relative path, its name and either its lines or `None` when opening or decoding failed (the `except: pass` at generate_readme.py:109).
- Directory pruning during the walk (generate_readme.py:78) is left out with the walk: `ReadmeScan.ScanProject` takes the walk's output after pruning.
- ReadmeScan.ParseGitignore: a `.gitignore` that cannot be opened or decoded is modelled as an absent file (`None`). A decode error part-way through the file would keep the lines already appended; that partial case is not modelled.
- ReadmeScan.OptimalCtx: `psutil` is a parameter (the machine's memory in bytes, or `None` when the module is missing). The division into gigabytes is compared exactly against whole GiB multiples rather than in floating point.
- Glob.Match: `fnmatch` character classes (`[...]`, `[!...]`) and case normalisation on non-POSIX systems are not modelled; only `*` and `?` are wildcards.
- PyStr.Lower: only ASCII letters are lowered; Unicode case mapping is not modelled.
- ReadmeScan.TodoText: its own contract says what can be dropped (whitespace, `/`, `#`) and that the rest keeps its order, but not that a lone `/` or inner whitespace survives; the exact value follows from `PyStr.RemoveAllAt`, `PyStr.RemoveAllAbsent`, `PyStr.StripExact` and `TodoTextPlain` applied to its four stages, and no single lemma states it.
- PyStr.Strip: the whitespace set is a fixed list of the characters `str.isspace()` accepts; Unicode database changes are not tracked.
- The README generation itself (the token estimate, the prompt for the README, the streaming reply and the write of `README.md`) is not part of this model.
- ReadmeScan.ReadOne and ReadmeScan.HarvestTodos are the body of the file loop and its inner line loop, written as separate methods so each loop carries its own invariant; together with `ScanProject` they perform the same updates in the same order.
