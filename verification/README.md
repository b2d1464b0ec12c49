# VTP mode report — Dafny model

A model of the per-device logic of `vtp_report_all.py`, a Nornir script that asks
Cisco switches for their VLAN Trunking Protocol (VTP) operating mode and appends
one CSV row per device to a per-family report file.

- **NXOS** (`vtp_info_nx`): the reply to `show vtp status` is searched for
  `VTP\sOperating\sMode\s+:\s+(\w+)`. A match decides the mode: `Transparent`,
  `Client`, `Server` and `Off` map to their lower-case names, and any other word
  maps to `""`. Only when nothing matches is `show feature | grep vtp` sent.
  Its reply is searched for `(vtp\s+)\d\s+(\w+)`: `disabled` and `enabled` map to
  fixed sentences, and any other word maps to `""`. No feature match at all is a
  crash (`.group` on `None`).
- **IOS** (`vtp_info_ios`): the structured reply is indexed as
  `reply["vtp"]["operating_mode"]`. A non-null value is the mode as it is.
  `None` becomes `Unable to retrieve VTP mode.`. A failed index is a crash.
- **Report**: the row `(host, hostname, mode)` is appended to
  `vtp_report_all.csv` (NXOS) or `vtp_report_xyz.csv` (IOS). The header
  `HOSTNAME, IP ADDR, VTP MODE` is guarded by `os.path.isfile`. But the check runs
  after `open(..., "a")` has already created the file (see Findings).

Layout, one module per file:

- `wrappers.dfy`: `Option`, `Result`.
- `chars.dfy`: Python's `\s`, `\w`, `\d`, and the greedy run of one class.
- `patterns.dfy`: the two patterns, hand-coded. It also has a reference semantics
  (`Spans`), and `re.search` as the leftmost match.
- `replies.dfy`: transport replies (`Null | Str | Dict`), faults standing for
  Python exceptions, and `value[key]`.
- `nxos.dfy`, `ios.dfy`: the two classifiers.
- `report.dfy`: the file store (file name → rows; a present key is an existing
  file) and the append.
- `tasks.dfy`: the two device tasks end to end.

Transport replies are parameters. The NXOS task is given both replies, and the
feature reply is read only on the fallback path. `commands` records which
commands were issued. The report writer takes an `Order`: `OpenThenCheck` is the
source, and `CheckThenOpen` is the corrected writer.

## Model

| member | source | states |
|---|---|---|
| Chars.Run | vtp_report_all.py:21 | A greedy `\s+`/`\w+` stops at the first character outside its class; every character it consumed is in the class |
| Patterns.TemplateIff | vtp_report_all.py:21 | The head `VTP\sOperating\sMode` (or `vtp`) is present at a position exactly when the text there spells it, with any `\s` character where the head has a space |
| Patterns.MatchAtSound | vtp_report_all.py:21-22 | A match found at a position is a real match of the pattern, and its group is maximal |
| Patterns.MatchAtComplete | vtp_report_all.py:45-46 | Any way the pattern can match at a position is found; the group found contains the group of that match, and equals it when that group is greedy |
| Patterns.MatchAtIff | vtp_report_all.py:21-22 | Matching at a position succeeds exactly when the pattern matches there |
| Patterns.Search | vtp_report_all.py:22 | `re.search` returns the first position that matches, with its group; no earlier position matches; with no result, no position matches |
| Patterns.SearchNoneIff | vtp_report_all.py:46 | The search returns `None` exactly when the pattern matches nowhere in the text |
| Patterns.SearchSomeIff | vtp_report_all.py:45-46 | The search returns (i, w) exactly when i is the leftmost match position and w is its greedy group |
| Patterns.TooShort | vtp_report_all.py:22 | A reply shorter than the pattern's head matches nowhere |
| Patterns.LineMatches | vtp_report_all.py:45-46 | A line made of the head, one space, a separator (`:` or a digit), one space and a word is matched at its start, and the group is the whole word |
| Replies.Lookup | vtp_report_all.py:81 | `value[key]` succeeds exactly on a dictionary holding the key and gives its entry; otherwise KeyError on a dictionary and TypeError on anything else |
| Nxos.Classify | vtp_report_all.py:13-54 | The commands are `[status]` or `[status, feature]`, and the second only when the status search fails; a non-text status reply is a TypeError; a failed feature search is the only other fault |
| Nxos.StatusDecides | vtp_report_all.py:21-32 | For the leftmost status match with word W, only the status command is issued. The mode is `transparent`/`client`/`server`/`off` for exactly `Transparent`/`Client`/`Server`/`Off` (case-sensitive), and `""` for any other W |
| Nxos.FallbackDecides | vtp_report_all.py:34-54 | With no status match, both commands are issued. The leftmost feature word `disabled`/`enabled` gives the two fixed sentences and any other word gives `""`; no feature match is the `.group`-on-`None` fault |
| Nxos.FeatureDecides | vtp_report_all.py:40-54 | With no status match and leftmost feature word W, both commands are issued and the mode is the disabled/enabled sentence for W, or `""` for any other W |
| Nxos.FeatureNotConsulted | vtp_report_all.py:23-42 | When the status text matches, the feature reply has no influence on the result |
| Nxos.ServerExample | vtp_report_all.py:28-29 | `VTP Operating Mode : Server` gives `server` after one command |
| Nxos.UnknownWordExample | vtp_report_all.py:20-32 | `VTP Operating Mode : Foo` gives `""` and no fallback |
| Nxos.DisabledExample | vtp_report_all.py:40-48 | Status text too short to hold `VTP Operating Mode` (such as `% Invalid command`) and the feature line `vtp 1 disabled` give `NXOS - VTP feature is disabled.` after two commands |
| Ios.Classify | vtp_report_all.py:77-85 | The mode is never null. Each fault is pinned as an if-and-only-if: KeyError `vtp` exactly on a dictionary without `vtp`; KeyError `operating_mode` exactly when `vtp` holds a dictionary without that key; TypeError exactly when the reply, or its `vtp` entry, is not a dictionary |
| Ios.ClassifyFollowsPath | vtp_report_all.py:81-85 | The mode exists exactly when the key path `vtp.operating_mode` does; a non-null value passes through verbatim; null becomes `Unable to retrieve VTP mode.` |
| Ios.TransparentExample | vtp_report_all.py:81-83 | A reply with `vtp.operating_mode = "transparent"` gives `transparent` |
| Report.OpenAppend | vtp_report_all.py:58 | Opening in append mode makes the file exist and changes no file's rows |
| Report.Append | vtp_report_all.py:58-66 | One append adds the file's name to the store and changes no other file. In the source order it adds exactly the data row at the end; in the corrected order a new file also gets the header first |
| Report.ExistingGainsRows | vtp_report_all.py:58-66 | Under either order, appends to a file that already exists add exactly the given rows after its old content |
| Report.AsWrittenNeverHeads | vtp_report_all.py:62-65 | In the source order, any number of appends add exactly those rows and never a header, even to a file that did not exist |
| Report.HeaderExactlyOnce | vtp_report_all.py:62-66 | In the corrected order, N appends to a missing file give one header followed by the N rows; an existing file gains only the rows |
| Report.AppendAllIsolated | vtp_report_all.py:87-96 | Appending any rows to one report file never creates or changes another file |
| Tasks.Conclude | vtp_report_all.py:57-66 | The end of a task: a fault leaves every file as it was; a mode appends one record (host, hostname, mode) to the family's file, after the header the order requires, and touches no other file |
| Tasks.VtpInfoNx | vtp_report_all.py:13-66 | A failed NXOS task raises the classifier's own fault and leaves every file unchanged. A successful one appends exactly one row (host, hostname, mode), after the header the order requires, to `vtp_report_all.csv` only |
| Tasks.VtpInfoIos | vtp_report_all.py:75-96 | The IOS task issues only `show vtp status`. On a fault it raises the classifier's own fault and no file changes; otherwise exactly one row is appended, to `vtp_report_xyz.csv` only |
| Tasks.ThreeRecords | vtp_report_all.py:57-96 | Two NXOS records then one IOS record on an empty directory leave exactly the two report files, each holding the header its order gives followed by its records in order |
| Tasks.Scenario | vtp_report_all.py:13-96 | With the replies `VTP Operating Mode : Server`; unparsable status plus `vtp 1 disabled`; and IOS `transparent`, two NXOS tasks then one IOS task on an empty directory leave exactly two files. Each holds `server`, the disabled sentence and `transparent` in completion order, with a header only in the corrected order |

## Findings

| source | as written | input that shows it | evidently intended | confidence | as-written member | corrected member |
|---|---|---|---|---|---|---|
| vtp_report_all.py:58-65 | `open(vtp_file, "a")` creates the file before `os.path.isfile(vtp_file)` runs, so `file_exists` is always true and the header row is never written (same at lines 88-95) | first task run in a directory without `vtp_report_all.csv`: the file ends up holding the data row only | the header row is written once, when the file is new | high, not executed | Report.AsWrittenNeverHeads | Report.HeaderExactlyOnce |

The device tasks take the writer order as a parameter. `Tasks.Scenario` proves
the end-to-end outcome under both orders. With the corrected order, each report
has one header and then its data rows.

## Left out

- Nornir setup, inventory filtering by `has_parent_group` and the `main` driver
  (lines 99-124): configuration plumbing around an external library.
- The netmiko transport and Genie parsing: foreign calls, so their replies are
  parameters. A failing transport call raises out of the task in the source.
  This model does not represent that case.
- Report: I/O failures of `open` and `writerow` (an `OSError` at lines 58,
  65-66, 88 and 95-96) are not modelled. Every append succeeds.
- `print` and `print_result` output and the separator lines: console output with
  no effect on the result.
- Nornir's threaded runner and concurrent appends to the same file: the source
  does no locking, and the model runs tasks one after another.
- CSV quoting and escaping, and the text rendering of a non-string mode value:
  library behaviour. Rows hold the cell values given to `csv.writer`.
- The scratch slot `task.host[0]`: it only passes a reply to the next line.
- Chars.Run: `\w` and `\d` accept only ASCII letters, digits and `_`. Python's
  Unicode `\w` also accepts every other character `str.isalnum()` accepts
  (letters, digits and numeric characters such as `½` and `²`), and `\d` every
  other decimal digit. `\s` is modelled in full.
- Replies: Genie values other than `None`, strings and string-keyed dictionaries
  (numbers, lists) are not modelled.
- Error paths are modelled as the code has them:
  - An unrecognised status word gives `""` and no fallback.
  - No feature match raises (`.group` on `None`).
  - A missing IOS key raises.
  - The header is never written (see Findings).
