# Mini-ASM core, modelled in Dafny

Mini-ASM is a small attack-surface monitor. For each domain it runs four
subdomain-enumeration tools. It merges their output files into one sorted file,
reads the merged file back as the set of found subdomains, and compares that set
with a baseline INI file of validated subdomains and their validation dates.
From the comparison it writes an alert message that lists the new subdomains and
the subdomains whose validation date is at least 365 days before today.

This project models that pipeline's logic and proves what it computes:

- `Subdomain` (function/subdomain.py) models `merge_files`: the union of the
  stripped lines of every tool file that exists, written sorted and joined by
  newlines, plus one warning for every missing file.
- `Alert` (function/alert.py) models two functions. `load_validated_subdomains`
  is a line scanner with an `in_target_section` flag, matching the section name
  case-insensitively. `alert_new_subdomains` is the console alert.
- `Asm` (asm.py) models these parts:
  - the configparser-backed `load_validated_subdomains`, as a lookup in the
    parsed file
  - `find_expired_subdomains`
  - the loop that reads the merged file into the found set
  - the new set `found - baseline keys`
  - the building of `full_message`
  - the reading of the domain-list file
- Supporting modules model the Python built-ins these use:
  - `PyStr`: `str.strip`, `startswith`, `endswith`, ASCII `lower`, `"\n".join`,
    line iteration over a text file, decimal formatting
  - `StrOrder`: Python's string order and `sorted` on a set
  - `Dates`: `datetime.date`, `toordinal`, `isoformat`, and
    `datetime.strptime(s, "%Y-%m-%d")` following the directive patterns of
    CPython's `_strptime`

Files are modelled by their contents: `Option<string>`, where None means that
the file does not exist. `date.today()` is a parameter.

Three behaviours of the code worth knowing:

- `merge_files` does not drop blank lines. A blank stripped line enters the set
  as `""`, which sorts first, so the merged text can begin with an empty line
  (`Subdomain.BlankLineLeads`). Reading the file back drops it again
  (`Asm.FoundOfMerged`).
- `full_message` joins `new_subs` and `exprired_subs` in set-iteration order,
  not sorted. The model lets the order be any enumeration of the set
  (`Asm.BuildMessage` returns the order it used). Only the console alert of
  function/alert.py sorts.
- asm.py matches the baseline section case-sensitively (`parser.has_section`).
  function/alert.py matches it case-insensitively. Both are modelled as written
  (`Asm.BaselineCaseSensitive`, `Alert.CaseInsensitiveDomain`).

## Model

| member | source | states |
|---|---|---|
| Subdomain.MergedSet | function/subdomain.py:74-84 | x is in the merged set iff some existing tool file has x as one of its stripped lines |
| Subdomain.MergeFiles | function/subdomain.py:69-90 | the loop over the tool files writes `"\n".join(sorted(set))` of the merged set, and warns once per missing file, in dictionary order |
| Subdomain.MergeStep | function/subdomain.py:76-84 | one more tool file adds exactly its stripped lines, or one warning when the file is missing |
| Subdomain.StrippedLinesContribute | function/subdomain.py:79-80 | `set(line.strip() for line in lines)` is the file's contribution |
| Subdomain.MergedEntries | function/subdomain.py:86-87 | the output's entries are strictly increasing, each appears once, and they are exactly the contributed lines |
| Subdomain.MergedEntriesAreLines | function/subdomain.py:79-87 | every entry is stripped and newline-free, so each one is written as one line |
| Subdomain.MissingFileSkipped | function/subdomain.py:77-84 | a missing file changes nothing: the output equals the output with that tool removed |
| Subdomain.OrderIndependent | function/subdomain.py:76-87 | two dictionaries holding the same items give the same output, whatever their order |
| Subdomain.NoFilesEmptyOutput | function/subdomain.py:86-87 | with no existing file the merged file is empty |
| Subdomain.NoTrailingNewline | function/subdomain.py:87 | the merged text never ends with a newline |
| Subdomain.BlankLineLeads | function/subdomain.py:79-87 | a blank input line together with any other entry makes the merged text start with an empty line |
| Subdomain.BlankSortsFirst | function/subdomain.py:87 | in a sorted listing holding `""` and another entry, `""` comes first |
| Subdomain.ContributesAmong | function/subdomain.py:76-80 | the contribution depends only on which existing files are present |
| Subdomain.RemovalMembers | function/subdomain.py:76 | removing one dictionary item keeps every other item |
| Alert.HeaderTest | function/alert.py:18 | `startswith("[") and endswith("]")` holds iff the stripped line has at least two characters and is bracketed (a lone `[` is not a header) |
| Alert.HeaderBefore | function/alert.py:14-25 | the header that governs a line is always a bracketed line |
| Alert.HeaderBeforeIsNearest | function/alert.py:11-25 | the governing header is the nearest header above the line, with no header in between; there is none only when no line above is a header |
| Alert.EntriesOf | function/alert.py:5-35 | x is collected iff some line, stripped, equals x and that line is an entry: not a header, under a header naming the domain, not blank, not a `#`/`;` comment; every collected value is non-blank and not a comment |
| Alert.FlaggedMembers | function/alert.py:14-33 | the flagged accumulation holds exactly the flagged lines read so far |
| Alert.LoadValidatedSubdomains | function/alert.py:5-35 | a missing file gives the empty set; otherwise the scanner with the `in_target_section` flag returns exactly `EntriesOf` the file's stripped lines |
| Alert.EntriesStep | function/alert.py:28-33 | one more line adds itself to the set iff it is an entry |
| Alert.InTargetStep | function/alert.py:18-25 | a header sets the flag to whether its name matches the domain, and any other line leaves the flag as it was |
| Alert.NoHeaderNoSection | function/alert.py:11-28 | lines before the first header are never collected |
| Alert.NoHeaderAbove | function/alert.py:11 | before the first header no section is open |
| Alert.CaseInsensitiveDomain | function/alert.py:21 | domains equal up to ASCII case give the same collected set |
| Alert.SectionExtent | function/alert.py:18-25 | a header governs every line below it up to the next header |
| Alert.CollectedVerbatim | function/alert.py:28-33 | under a matching header, every non-blank, non-comment, non-header line is collected as it stands (a `key = value` line whole) |
| Alert.OtherSectionIgnored | function/alert.py:23-24 | under a header naming another domain nothing is collected |
| Alert.MixedCaseHeaderMatches | function/alert.py:20-21 | `[X.Com]` is a header that opens the section of `x.com` |
| Alert.AlertNewSubdomains | function/alert.py:38-52 | the alert echoes one line per new subdomain; `"  " + s` is echoed iff s was discovered and is not validated; the echoed lines are in increasing order; the log line is `No new subdomains for [domain]` iff nothing is new |
| Alert.IndentedMembers | function/alert.py:49-50 | echoing `"  " + sub` for each listed subdomain gives one line per subdomain, and `"  " + s` appears iff s is listed |
| Alert.IndentedOrder | function/alert.py:49-50 | indenting a sorted listing keeps it sorted |
| Alert.AlertLineDiffers | function/alert.py:48-52 | the `[ALERT] Found ...` log line is never the `No new subdomains` line |
| Alert.PrefixKeepsOrder | function/alert.py:50 | the same prefix in front of two strings keeps their order |
| Alert.MissingFileAllNew | function/alert.py:6-50 | with the file missing, `"  " + s` is echoed iff s was discovered, one line per discovered subdomain |
| Asm.LoadBaseline | asm.py:48-67 | the result is empty when the file or the exact-case section is missing; otherwise it has the section's keys, with each value stripped |
| Asm.BaselineCaseSensitive | asm.py:59-60 | a section `[X.Com]` gives nothing for `x.com`, and gives its entries for `X.Com` |
| Asm.FindExpiredSubdomains | asm.py:69-85 | the loop returns exactly the keys whose date parses and lies at least `days_valid` days before today, and separately the keys whose date is malformed (logged and skipped) |
| Asm.ExpiryStep | asm.py:76-84 | one more dictionary item adds its key to the expired or the malformed set exactly when that applies |
| Asm.IsExpired | asm.py:77-81 | only a date that `strptime` accepts can expire, and a date after today never expires under a non-negative window |
| Asm.ExpiredIff | asm.py:77-81 | s is expired iff s is a key, its date parses, and `(today - date).days >= days_valid` |
| Asm.ExpiredWithinBaseline | asm.py:73-85 | expired keys are baseline keys, and a malformed date is never expired |
| Asm.ShorterWindowExpiresMore | asm.py:80 | a smaller `days_valid` expires a superset |
| Asm.YearWindowExample | asm.py:142 | with `days_valid=365`, a date of 2023-01-01 has expired on 2024-06-01 and a date of 2024-01-01 has not |
| Asm.ExpiryBoundary | asm.py:78-80 | a date exactly `days_valid` days old, stored as YYYY-MM-DD, has expired; the day after it has not |
| Asm.FoundSet | asm.py:130-135 | the found set never holds `""`, and every member is stripped |
| Asm.ReadFoundSubdomains | asm.py:130-135 | the read loop returns the set of non-blank stripped lines of the merged file |
| Asm.FoundStep | asm.py:132-135 | one more line adds its stripped form iff that is non-blank |
| Asm.FoundOfMerged | asm.py:118-135 | reading back the merged file gives the tools' merged set without `""` |
| Asm.NewSubdomains | asm.py:141 | the new set lies in the found set, is disjoint from the baseline keys, and holds every found subdomain missing from the baseline |
| Asm.NewFromTools | asm.py:118-141 | x is reported new iff some existing tool file lists x, x is non-blank, and the baseline lacks x; with no baseline file every listed non-blank subdomain is new |
| Asm.Enumerate | asm.py:148-154 | iterating a set yields each element exactly once |
| Asm.BuildMessage | asm.py:144-156 | `full_message` is the new block followed by the expired block, for enumerations of the new and expired sets |
| Asm.AppendNewPart | asm.py:146-150 | appends the count header and the new subdomains joined by newlines, or `No new subdomains for [domain]` |
| Asm.AppendExpiredPart | asm.py:152-156 | appends the expired count header and the expired subdomains, or `\nNo expired subdomains for [domain]` |
| Asm.EmptyEnumeration | asm.py:146-152 | an enumeration is empty iff its set is, so the `if` tests on the sets choose the block |
| Asm.MessageOpensWithCount | asm.py:146-147 | with something new, the message opens with `[+] Found <count> new subdomain(s) for [domain]:` and a newline |
| Asm.MessageOpensQuiet | asm.py:149-156 | with nothing new, the message opens with `No new subdomains for [domain]` followed by a newline |
| Asm.ExpiredBlockNewline | asm.py:152-156 | the expired part always starts on a new line |
| Asm.MessageNeverBlank | asm.py:144-156 | the message is never blank once stripped |
| Asm.EnumerationsAgree | asm.py:148-154 | two iteration orders of one set list the same subdomains the same number of times (equal multisets) |
| Asm.EnumerationCounts | asm.py:148-154 | iterating a set lists each of its elements exactly once (the listing's multiset is the set's) |
| Asm.DomainList | asm.py:201 | the domain list is no longer than the file, and each entry is non-blank and stripped |
| Asm.DomainListMembers | asm.py:201 | the domain list holds exactly the non-blank stripped lines |
| Asm.DomainListRoundTrip | asm.py:199-201 | writing non-blank, stripped, newline-free names one per line and reading them back gives the same names in the same order |
| Asm.DomainListKeeps | asm.py:201 | a line that is non-blank once stripped is kept, stripped, in its place |
| Asm.DomainListFront | asm.py:201 | a name in front of a list that reads back reads back in front |
| Asm.DomainListOne | asm.py:201 | a single name reads back as itself |
| Dates.ParseDate | asm.py:78 | a parsed date is a valid date; the whole string is 8 to 10 characters long, starts with four digits that give the year, and has a dash after them |
| Dates.FormatThenParse | asm.py:78 | every date in the YYYY-MM-DD form parses back to itself |
| Dates.OrdinalNextDay | asm.py:79 | day numbers count days: the next day's number is one more, so an ordinal difference is `.days` |
| Dates.NextDay | asm.py:79 | the day after a valid date (other than 9999-12-31) is a valid date |
| StrOrder.SortedOf | function/subdomain.py:87 | `sorted(set)` lists each element once, in strictly increasing order |
| StrOrder.SortedUnique | function/subdomain.py:87 | two strictly increasing listings of the same elements are equal |
| PyStr.Strip | function/subdomain.py:79 | the result of `strip()` is stripped, and a stripped string is unchanged |
| PyStr.StripIdempotent | function/alert.py:15 | stripping twice is stripping once |
| PyStr.LinesShape | function/alert.py:14 | iterating a text file gives non-empty lines that hold a newline only as their last character, every line but the last ends with one, and together they are the text |
| PyStr.LinesCut | function/alert.py:14 | no line is empty, and every line but the last ends with a newline |
| PyStr.NonBlankOfJoin | asm.py:130-135 | reading back entries joined by newlines gives the non-blank stripped entries |

## Left out

- Running the tools (subfinder, sublist3r, assetfinder, SecurityTrails): these
  are subprocess calls, so each tool file is an input, present or missing.
- The ThreadPoolExecutor that runs the tools in parallel: only their output
  files matter here.
- The e-mail and Teams senders (function/email_alert.py,
  function/teams_alert.py) are not part of this model. They are network I/O.
- `console_alert`, which asm.py imports from function/alert.py, is not defined
  there, and is not part of this model.
- The click command line, the `-t` repeat loop with `time.sleep`, the temp
  directory and its removal, `safe_run`, and the unused
  `run_all_subdomain_tools`: these are process control and I/O.
- The `tmp_dir` used at asm.py:235 is undefined at module level, and `merged_file`
  is unbound at asm.py:131 when `domain` is empty. These are Python runtime
  errors in the driver, outside the modelled logic.
- The echo of the merged file at asm.py:121-128, and every log and echo line
  except the alert's and the merge warning: these are console and logging
  output.
- Asm.LoadBaseline: configparser's own parsing is not modelled. The file is
  given already parsed. DEFAULT-section inheritance, continuation lines,
  duplicate keys, value interpolation (asm.py:54 uses the default
  BasicInterpolation, so `%(name)s` in a value is substituted and a stray `%`
  raises at asm.py:65) and its errors are out of scope.
- PyStr.Lower: ASCII only. Python's full Unicode `str.lower` is not modelled.
- Dates.ParseDate: `\d` is taken as ASCII digits. CPython also accepts other
  Unicode decimal digits there.
- Decoding is not modelled: files are given as already-decoded text. The reads
  at function/subdomain.py:78-79 (locale encoding), function/alert.py:13 and
  asm.py:131 (UTF-8) raise `UnicodeDecodeError` on bytes that do not decode;
  that error path is not part of this model.
- Subdomain.MergeFiles: a tool path that exists but is a directory makes
  `open` raise at function/subdomain.py:78; the model treats every path as
  either a readable file or missing.
- PyStr.Lines: Python's universal-newline translation of `\r` and `\r\n` is not
  modelled. Lines are split after `\n` only.
- `date.today()` is a parameter of Asm.FindExpiredSubdomains. The clock is not
  modelled.
- Asm.FindExpiredSubdomains: the warning logged for a malformed date is
  modelled as the returned set of such keys, not as log text.
- Asm.BuildMessage: Python's set iteration order is not modelled. Any
  enumeration of the set is allowed, and the method returns the order it used.
