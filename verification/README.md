# zabbix-nfs health check — a Dafny model of its result logic

The `frogg_nfs_check_timed.py` script checks an NFS server for a monitoring
system. It has two checks:

- The version check runs `rpcinfo -t <server> nfs`. It reports the highest
  protocol version announced on a line containing "ready and waiting". It
  reports "0" when no line qualifies.
- The share check runs `showmount -e <server>`. It reports which of a
  comma-separated list of requested exports the server does not publish.
  Each missing export is written as `[share]`, and the entries are joined
  with ",".

In both checks a non-zero exit code of the tool gives `"Error: " + stderr`.

This project models both checks as pure functions of the tool's
`(exit code, stdout, stderr)` triple (`Command.CommandResult`) and proves
what their results mean. The Python string operations they use are modelled
as written:

- `splitlines()`, with every line boundary CPython recognises (`Text.SplitLines`);
- `sub in s` (`Text.Contains`);
- `split()[0]`, with CPython's whitespace set (`Text.FirstToken`);
- `split(",")` and `",".join` (`Text.SplitOnComma`, `Text.Join`);
- `int()` and `str()` on ASCII digits (`Decimal`).

Modules:

- `Wrappers`: `Option`.
- `Text`: the string operations above and their round-trip lemmas.
- `Decimal`: decimal numerals.
- `Command`: the tool's result triple, the error text, and `Outcome`.
- `VersionCheck`: `get_nfs_version`.
- `ShareCheck`: `check_nfs_share`.

Decisions:

- A blank line after the `showmount` header makes `line.split()[0]` raise
  `IndexError`. Nothing in the script catches it. The model gives the result
  `Outcome.RaisedIndexError` rather than a precondition that rules the case out.
- The missing shares come out in Python set iteration order, which is not
  specified. `ShareCheck.CheckNfsShare` is a method that picks the elements in
  an arbitrary order and returns that order as a ghost out-parameter. Its
  contract says the output is the report of some enumeration of the missing
  set, listing each element exactly once.

## Model

| member | source | states |
|---|---|---|
| Command.ErrorReport | frogg_nfs_check_timed.py:22-23 | the error text is exactly "Error: " followed by the tool's stderr |
| Text.SplitLines | frogg_nfs_check_timed.py:26 | no line holds a line boundary; the line list is empty exactly when the output is empty |
| Text.SplitLinesRoundTrip | frogg_nfs_check_timed.py:26 | lines written with "\n" terminators split back into exactly those lines |
| Text.SplitLinesHeader | frogg_nfs_check_timed.py:44 | a first line ending in "\n" splits off as line 0, and the rest splits on its own |
| Text.Contains | frogg_nfs_check_timed.py:27 | `sub in s`; ContainsIff states it holds exactly when `sub` occurs at some position |
| Text.ContainsIff | frogg_nfs_check_timed.py:27 | `sub in s` holds exactly when `sub` occurs at some position of `s` |
| Text.FirstToken | frogg_nfs_check_timed.py:44 | `split()[0]` fails exactly on an all-whitespace line; otherwise it is the non-empty whitespace-free token after the leading whitespace, ending at whitespace or end of line |
| Text.FirstTokenOf | frogg_nfs_check_timed.py:44 | conversely, whitespace, then a token, then whitespace or the end always yields that token |
| Text.SplitOnComma | frogg_nfs_check_timed.py:45 | `split(",")` gives at least one piece and no piece contains a comma |
| Text.Join | frogg_nfs_check_timed.py:48 | `sep.join(parts)`; JoinSplitOnComma and SplitOnCommaJoin state that it inverts `split(",")` |
| Text.JoinSplitOnComma | frogg_nfs_check_timed.py:45 | joining the comma-split pieces with "," restores the argument |
| Text.SplitOnCommaJoin | frogg_nfs_check_timed.py:45 | comma-free pieces joined with "," split back into exactly those pieces |
| Decimal.ParseDecimal | frogg_nfs_check_timed.py:30 | `int()` on a digit string; ParseNatToString and NatToStringParse pin it down as the inverse of `str` |
| Decimal.DigitRun | frogg_nfs_check_timed.py:28 | the greedy `\d+` takes every leading digit and stops at a non-digit or the end |
| Decimal.NatToString | frogg_nfs_check_timed.py:33 | `str(n)` is a non-empty digit string with no leading zero except "0" itself |
| Decimal.ParseNatToString | frogg_nfs_check_timed.py:30-33 | `int(str(n)) == n` |
| Decimal.NatToStringParse | frogg_nfs_check_timed.py:30-33 | `str(int(ds)) == ds` for every numeral with no leading zero |
| VersionCheck.FindVersion | frogg_nfs_check_timed.py:28 | `re.search` finds the leftmost position where "version " is followed by a digit, or reports that there is none |
| VersionCheck.LineVersion | frogg_nfs_check_timed.py:27-30 | the version one line contributes; LineVersionMeaning and LineVersionOf state which lines contribute and what |
| VersionCheck.LineVersionMeaning | frogg_nfs_check_timed.py:27-30 | a line contributes a version exactly when it contains "ready and waiting" and the pattern matches in it; the version is the value of the whole digit run of the leftmost match |
| VersionCheck.LineVersionOf | frogg_nfs_check_timed.py:27-30 | conversely, a ready line in which "version " followed by a digit run is the leftmost match contributes that run's value |
| VersionCheck.RpcinfoLineVersion | frogg_nfs_check_timed.py:27-30 | a standard "program P version n ready and waiting" line contributes exactly n |
| VersionCheck.Versions | frogg_nfs_check_timed.py:25-31 | the collected versions; VersionsMembers states that a value is collected exactly when some line contributes it |
| VersionCheck.VersionsMembers | frogg_nfs_check_timed.py:25-31 | a value is collected exactly when some line of the output contributes it |
| VersionCheck.Max | frogg_nfs_check_timed.py:33 | `max` returns an element that no other element exceeds |
| VersionCheck.VersionOfLines | frogg_nfs_check_timed.py:25-35 | the result is a canonical numeral; "0" when no line qualifies; otherwise it reads as a version some line contributed, and no line contributes more |
| VersionCheck.GetNfsVersion | frogg_nfs_check_timed.py:18-35 | a failed run gives "Error: " + stderr whatever stdout holds; a successful run gives the canonical numeral of the highest contributed version, or "0" when no line qualifies |
| VersionCheck.ErrorIffFailed | frogg_nfs_check_timed.py:22-35 | the result starts with "Error: " exactly when the tool exited non-zero, so a missing service ("0") is never confused with a failure |
| VersionCheck.LineOrderIrrelevant | frogg_nfs_check_timed.py:25-33 | the result depends only on which lines occur, not on their order or repetition |
| VersionCheck.OutputLineOrderIrrelevant | frogg_nfs_check_timed.py:26-33 | the same for the captured `rpcinfo` output |
| VersionCheck.UnreadyLineIgnored | frogg_nfs_check_timed.py:27-30 | inserting a line without "ready and waiting" anywhere leaves the result unchanged |
| VersionCheck.UnreadyOutputLineIgnored | frogg_nfs_check_timed.py:26-30 | the same for the captured `rpcinfo` output |
| VersionCheck.TwoLinesReport | frogg_nfs_check_timed.py:25-33 | output of two contributing lines reports the larger of their two versions |
| VersionCheck.HigherVersionWins | frogg_nfs_check_timed.py:25-33 | two announced versions of a program give the higher one, in either line order |
| VersionCheck.Nfs4Example | frogg_nfs_check_timed.py:32-33 | NFS announcing versions 3 and 4 gives "4" |
| ShareCheck.TokensOf | frogg_nfs_check_timed.py:44 | the set of first tokens, or failure; TokensOfMeaning states both outcomes |
| ShareCheck.ExportedShares | frogg_nfs_check_timed.py:44 | the tokens of the lines after the header; ExportedSharesMeaning states both outcomes |
| ShareCheck.Requested | frogg_nfs_check_timed.py:45 | `set(shares.split(","))`; DuplicateRequestCollapses, RequestNotTrimmed and EmptyNameAlwaysMissing state its behaviour on repeated, spaced and empty names |
| ShareCheck.MissingShares | frogg_nfs_check_timed.py:44-47 | the requested names minus the exported ones, or failure; MissingSharesMeaning states membership in both directions |
| ShareCheck.TokensOfMeaning | frogg_nfs_check_timed.py:44 | the token set fails exactly when some line is blank; otherwise it holds exactly the lines' first tokens |
| ShareCheck.ExportedSharesMeaning | frogg_nfs_check_timed.py:44 | the available set skips line 0 and holds exactly the first tokens of the later lines; a blank later line makes it fail |
| ShareCheck.MissingSharesMeaning | frogg_nfs_check_timed.py:44-47 | the check fails exactly on a blank line after the header; otherwise a name is missing exactly when it is requested and no later line starts with exactly that token |
| ShareCheck.Report | frogg_nfs_check_timed.py:48 | the bracketed, comma-joined list; ReportRoundTrip and ReportEmptyIff state that it can be read back and is "" only for no names |
| ShareCheck.ReportEmptyIff | frogg_nfs_check_timed.py:48 | the report is "" exactly when no share is listed |
| ShareCheck.ReportRoundTrip | frogg_nfs_check_timed.py:48 | the comma-free names in a report can be read back in order, each appearing once as `[name]` between commas |
| ShareCheck.ReportOfEnumeration | frogg_nfs_check_timed.py:47-48 | the report of the missing names is "" exactly when none is missing, reads back to the listed names, and never starts with "Error: " |
| ShareCheck.CheckNfsShare | frogg_nfs_check_timed.py:37-48 | a failed run gives "Error: " + stderr; a blank share line raises IndexError; otherwise the output reports an enumeration of the missing set, is "" exactly when nothing is missing, reads back to that enumeration, and starts with "Error: " only on failure |
| ShareCheck.HeaderIgnored | frogg_nfs_check_timed.py:44 | replacing the header line of the `showmount` output changes nothing |
| ShareCheck.DuplicateRequestCollapses | frogg_nfs_check_timed.py:45-47 | requesting a share twice is the same as requesting it once |
| ShareCheck.EmptyNameAlwaysMissing | frogg_nfs_check_timed.py:44-47 | an empty requested name (empty argument or stray comma) is always reported missing, because no token is empty |
| ShareCheck.SpacedNameAlwaysMissing | frogg_nfs_check_timed.py:44-47 | a requested name starting with whitespace is reported missing whatever `showmount` printed, because no first token starts with whitespace |
| ShareCheck.RequestNotTrimmed | frogg_nfs_check_timed.py:45-47 | a name after ", " keeps its leading space, so requesting "a, b" leaves " b" once `a` and `b` are removed |
| ShareCheck.MissingAgainstTwoExports | frogg_nfs_check_timed.py:44-48 | against exports a and b: requesting a and some other c leaves exactly {c} missing; requesting a and b leaves nothing missing; requesting "a, b" leaves exactly " b" missing |

## Left out

- `run_command` (frogg_nfs_check_timed.py:9-16): process spawning, the ten-second timeout and exception capture. Its result is an input. Its sentinels (124 on timeout, 1 on any other exception, including a failure to decode the output as text) are ordinary non-zero exit codes here. Its stderr text already begins "Error: ", so such a result reads "Error: Error: …". Its `text=True` newline translation happens before the model's input.
- `main` (frogg_nfs_check_timed.py:49-76): argument checks, hostname resolution, dispatch, `print` and `sys.exit`. These are I/O and process control. An `IndexError` from the share check is not caught anywhere; the model stops at `Outcome.RaisedIndexError`.
- The file as written does not compile: line 49 indents `def main():` by two spaces, a level that matches no enclosing block (0 or 4), so Python raises `IndentationError` before anything runs. The model describes the two checks as if that line were at column 0, which is evidently what was meant.
- Unicode digits: `\d` and `int()` also accept non-ASCII decimal digits. The model reads ASCII '0'..'9' only.
- CPython 3.11+ refuses `int()` and `str()` on numerals longer than 4300 digits by default. This depends on the interpreter version and configuration, so the model treats integers as unbounded.
- The regular-expression engine in general. Only the one search `version (\d+)` is modelled.
- ShareCheck.CheckNfsShare: the order of the missing shares in the output is Python's set iteration order, which the language does not specify. The contract fixes the content and the format but not the order.
