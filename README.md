# mail_export in Dafny

This project models the core of `mail_export`, a command-line tool that keeps
a local SQLite copy of an Exchange mailbox and exports it.

- **The exchange side** (`exchange/api.py`). An `Email` object holds the
  opened `Mail` table and the account credentials.
  - `collect_mail` takes the three newest inbox items and normalises each
    into six fields. It inserts an item unless a stored row already has the
    same date-time.
  - `get_db_records` and `find_records` query the table.
  - `records_to_files` writes one `.html` file per row.
  - `select_records` builds the pick list and reads a choice back.
  - `format_html` ends by keeping at most forty non-blank lines.
  - `to_iso_dt` parses `YYYY-MM-DD HH:MM:SS`.
- **The command-line side** (`mail_export/__main__.py`).
  - `get_args` rejects downloading and purging together. It fills a missing
    e-mail or password from the environment.
  - `bitem` cuts a pick-list entry at its first `" - "`.
  - The menu offers eight fixed entries, and "Download from account" only
    when both credentials are truthy: set and non-empty.
  - The menu's actions set the credentials, or set or reset the filter settings of the `Email`
    object.
  - `main` either downloads at once or shows the menu.

Modules:

- `Wrappers`: `Option` and `Result`.
- `PyStrings`: the Python string operations the code relies on:
  - `str.isspace`, `split()`, `split(c)` and `join`;
  - `re.sub(r"[^\w]", "", …)`;
  - ASCII case folding;
  - `str(int)` and zero padding.
- `DateTimes`:
  - `datetime` values and their range checks;
  - the `strftime` formats used;
  - `strptime` for `"%Y-%m-%d %H:%M:%S"`, modelled as the regular expression
    CPython's `_strptime` compiles for that format. Fields are one or two
    digits where the format allows it, `\s+` stands for the blank, and
    alternatives are tried in order with backtracking. Then there is the
    unconverted-data check and the constructor's range checks.
- `ExchangeMail`:
  - the `Mail` row and the inbox item;
  - normalisation;
  - the queries `get_db_records` and `find_records` over the table, which
    is a sequence of rows in key order.
- `ExchangeIngest`: one run of `collect_mail` as a function of the table and
  the inbox.
- `ExchangeExport`: export file names, the folder written, the pick list and
  the line trimming.
- `ExchangeApi`: the `Email` class.
  - `CollectMail` loops over the items; `CollectItem`, one pass of that
    loop, appends a row to the table field when the item is new.
  - `RecordsToFiles` loops over the rows and returns the folder it writes.
    It changes no field.
  - Each is proved against the function of `ExchangeIngest` or
    `ExchangeExport` that specifies it.
- `MailExportMain`: `__main__.py`. `GetArgs` is a loop over the two
  credential names. The `Menu` class changes the fields of its `Email`.
  `RunMain` chooses between downloading and showing the menu.

How the code behaves, in points a reader might not expect:

- Duplicate date-times are kept out by a count query before each insert. The
  `datetime` column has no uniqueness constraint.
- Nothing catches an exception during a run. If normalising an item fails,
  or an insert violates NOT NULL, the run ends. The rows inserted before
  that stay.
- The exported file holds the body unchanged, with no wrapper added.
- The filter attributes are assigned by the menu, but the shown code never
  reads them.

## Model

| member | source | states |
|---|---|---|
| DateTimes.ToIsoDt | exchange/api.py:46-48 | a successful parse has no sub-second part; errors are a failed match, unconverted trailing text or an out-of-range field |
| DateTimes.ParseIsoText | exchange/api.py:17 | for fields within the pattern's own ranges (month up to 12, day up to 31, hour up to 23, minute up to 59, second up to 61), a `YYYY-MM-DD HH:MM:SS` text parses to exactly its six fields when they form a valid date-time, and to the out-of-range error otherwise (year 0, day past month end, seconds 60 or 61) |
| DateTimes.MatchIsoText | exchange/api.py:17 | the strptime pattern matches the canonical text at the start of any string, capturing the six padded fields and ending at position 19 |
| DateTimes.TrailingTextRejected | exchange/api.py:46-48 | any text after a complete date-time makes the parse fail with unconverted data |
| DateTimes.IsoRoundTrip | exchange/api.py:61 | formatting with ISO_FORMAT and parsing back gives the date-time truncated to whole seconds |
| DateTimes.ParsedIsCanonical | exchange/api.py:46-48 | a parsed value reparses from its own canonical text to itself |
| DateTimes.ToIsoDtExample | exchange/test_api.py:26 | `'2021-01-01 01:00:00'` parses to 2021-01-01 01:00:00 |
| DateTimes.ToIsoDtRejectsFebruary30 | exchange/api.py:46-48 | `2021-02-30 00:00:00` matches the pattern but is rejected as out of range |
| DateTimes.ToIsoDtRejectsLeapSecond | exchange/api.py:46-48 | second 60 matches `%S` but is rejected by the datetime constructor |
| DateTimes.IsoPatternGroups | exchange/api.py:17 | the compiled pattern has exactly six groups |
| DateTimes.Construct | exchange/api.py:48 | the constructor succeeds iff the fields are in range, and then yields exactly those fields |
| DateTimes.WholeSeconds | exchange/api.py:61 | drops only the microseconds |
| DateTimes.IsoFormat | exchange/api.py:61 | `%Y-%m-%d %H:%M:%S`: nineteen characters with `-`, blank and `:` in place, and the six fields read back as year, month, day, hour, minute and second |
| DateTimes.FileStamp | exchange/api.py:91 | `%y%m%d_%H%M`: eleven characters, digits with `_` at position 6, and the five two-digit fields read back as year mod 100, month, day, hour and minute |
| DateTimes.LabelStamp | exchange/api.py:121 | `%y%m%d %H:%M`: twelve characters, blank and colon in place, and the five two-digit fields read back as year mod 100, month, day, hour and minute |
| PyStrings.SplitWs | exchange/api.py:92-93 | `str.split()`: every word is non-empty and holds no whitespace |
| PyStrings.SplitWsHead | exchange/api.py:92 | after leading whitespace of any length and kind, the first word is the longest run without whitespace, and the other words are those of the text after it |
| PyStrings.SplitOn | exchange/api.py:135 | `str.split(c)`: at least one part, and no part holds `c` |
| PyStrings.JoinWith | exchange/api.py:93 | `sep.join` (also at lines 63 and 136): starts with the first part, and is as long as the parts together plus one separator between each two |
| PyStrings.SplitWsEmptyIffBlank | exchange/api.py:92 | `split()` gives no words iff the text is all whitespace |
| PyStrings.SplitWsJoin | exchange/api.py:93 | splitting blank-joined words gives back the words |
| PyStrings.SplitWsKeepsText | exchange/api.py:93 | the words of `split()` together are the text without its whitespace |
| PyStrings.SplitOnJoin | exchange/api.py:63 | splitting a join on a separator no part contains gives back the parts |
| PyStrings.JoinSplitOn | exchange/api.py:135-136 | joining the parts of `split(c)` with `c` gives back the text |
| PyStrings.PrefixBefore | mail_export/__main__.py:74 | the result is a prefix of the text with no separator starting inside it, and is the whole text or is followed by the separator |
| PyStrings.PrefixBeforeJoined | exchange/api.py:128 | `p + sep + t` splits back to `p` when no separator starts inside `p` |
| PyStrings.KeepWordChars | exchange/api.py:93 | `re.sub(r"[^\w]", "", s)` keeps exactly the word characters of `s`; order and count follow from `KeepWordCharsAppend` and `KeepWordCharsChar` |
| PyStrings.KeepWordCharsAppend | exchange/api.py:93 | filtering works part by part, so the kept characters stay in order |
| PyStrings.KeepWordCharsChar | exchange/api.py:93 | one character is kept iff it is a word character |
| PyStrings.JoinWithWordChars | exchange/api.py:93 | joining words of word characters with `_` gives word characters only |
| PyStrings.KeepWordCharsIdempotent | exchange/api.py:93 | removing non-word characters from word characters changes nothing |
| PyStrings.ContainsLower | exchange/api.py:105-108 | an occurrence survives ASCII case folding of both sides |
| PyStrings.NatToStr | exchange/api.py:121 | `str(n)` is non-empty decimal digits whose value is `n`, with no leading zero unless `n` is 0 |
| ExchangeMail.NextId | exchange/api.py:69 | the next key is one more than the last key, or 1 for an empty table; it is positive and above every stored key |
| ExchangeMail.Address | exchange/api.py:62 | the text is the name's text, `" <"`, the address's text and a closing `>` (`None` printed as `None`), so it always holds `<` and is never blank |
| ExchangeMail.Addresses | exchange/api.py:63 | one `name <address>` per recipient, in order |
| ExchangeMail.Normalise | exchange/api.py:60-67 | succeeds iff the item has a receive time, a sender and recipients, with AttributeError or TypeError otherwise, in evaluation order; on success the date-time is in whole seconds, the sender is `name <address>`, `to` is the `,`-join of one `name <address>` per recipient, cc is `str(display_cc)`, and subject and body pass through |
| ExchangeMail.NormalisedSenderNotBlank | exchange/api.py:62 | a normalised sender has a first word |
| ExchangeMail.NoRecipients | exchange/api.py:63 | no recipients give an empty `to` |
| ExchangeMail.RecipientsSplitBack | exchange/api.py:63 | splitting `to` on commas gives one address per recipient, in order, when no address holds a comma |
| ExchangeMail.SameSecondSameStamp | exchange/api.py:61 | items received in the same second get the same stored date-time |
| ExchangeMail.CountAt | exchange/api.py:68 | the count is zero iff no row has that date-time |
| ExchangeMail.IdRange | exchange/api.py:74 | a row is returned iff its key lies in the range |
| ExchangeMail.GetDbRecords | exchange/api.py:72-75 | a row is returned iff `f <= id <= t`, with `f` defaulting to 0 and `t` to the row count |
| ExchangeMail.DefaultIsWholeTable | exchange/api.py:73 | with keys 1..n and no arguments, the result is the whole table |
| ExchangeMail.GetDbRecordsSlice | exchange/api.py:72-75 | with keys 1..n, the records from `f` to `t` are the table slice `f-1..t`, clipped |
| ExchangeMail.IdRangeAppend | exchange/api.py:74 | the range query keeps table order |
| ExchangeMail.LikeContains | exchange/api.py:105-108 | `contains` as SQLite's `LIKE '%word%'`: an exact occurrence is a match, and the empty word matches every field |
| ExchangeMail.Hit | exchange/api.py:104-109 | the four-way OR: an exact occurrence in the recipients, sender, subject or body is a hit, and the empty word hits every row |
| ExchangeMail.FindRecords | exchange/api.py:101-113 | a row is found iff the word occurs, ignoring ASCII case, in its recipients, sender, subject or body |
| ExchangeMail.FindRecordsAppend | exchange/api.py:102-111 | the search keeps table order |
| ExchangeMail.FindsExactOccurrence | exchange/api.py:105-108 | a row containing the word as typed in one of the four columns is found |
| ExchangeMail.EmptyWordFindsAll | exchange/api.py:101-113 | the empty word finds every row |
| ExchangeMail.CcNeverSearched | exchange/api.py:104-109 | changing a row's cc never changes whether it is found |
| ExchangeMail.SearchIgnoresCase | exchange/api.py:105-108 | searching for the lower-cased word finds the same rows |
| ExchangeMail.SameSearch | exchange/api.py:105-108 | words equal up to ASCII case find the same rows |
| ExchangeIngest.NewRow | exchange/api.py:69 | the inserted row has key `NextId`, which keeps keys increasing, and carries the six normalised fields |
| ExchangeIngest.Step | exchange/api.py:60-69 | one item: the normalisation error; otherwise success iff a row already has its date-time or subject and body are present, with IntegrityError otherwise; one row is added iff none had its date-time, and that row has the next key and the item's normalised sender, to, cc, subject and body |
| ExchangeIngest.Ingest | exchange/api.py:57-69 | a run keeps keys increasing, only appends and adds at most one row per item |
| ExchangeIngest.Collect | exchange/api.py:57-59 | a run adds at most three rows and keeps the stored ones |
| ExchangeIngest.CollectIgnoresOlder | exchange/api.py:58 | items after the three newest never affect the table |
| ExchangeIngest.KeepsStoredRows | exchange/api.py:68-69 | rows stored before a run are not changed or removed |
| ExchangeIngest.IngestNoDuplicateAdded | exchange/api.py:68-69 | no row a run inserts shares its date-time with an earlier row, stored or inserted |
| ExchangeIngest.StepStores | exchange/api.py:68-69 | after a successful step the table has a row at the item's date-time |
| ExchangeIngest.IngestComplete | exchange/api.py:57-69 | a run without an exception leaves a row at the date-time of every item it looked at |
| ExchangeIngest.SameSecondOneRow | exchange/api.py:68-69 | two items in the same second, none stored, produce one row |
| ExchangeIngest.IngestKeepsDense | exchange/api.py:69 | inserting into a table keyed 1..n keeps the keys 1..n+k |
| ExchangeIngest.MissingBodyAborts | exchange/api.py:26-27 | a new item without subject or body ends the run with IntegrityError and leaves the table unchanged |
| ExchangeApi.Email.constructor | exchange/api.py:34-44 | the object holds the given table and credentials, and no filter is set |
| ExchangeApi.Email.Insert | exchange/api.py:69 | the table gains exactly the new row at its end |
| ExchangeApi.Email.CollectItem | exchange/api.py:60-69 | one item changes the table and raises exactly as `Step` specifies |
| ExchangeApi.Email.CollectMail | exchange/api.py:50-69 | the loop leaves the table and the exception exactly as the run `Collect` of the old table specifies |
| ExchangeApi.Email.RecordsToFiles | exchange/api.py:89-98 | the loop leaves the folder and the exception exactly as `ExportAll` of all records specifies |
| ExchangeExport.SubjectPart | exchange/api.py:93 | the subject part consists of word characters only |
| ExchangeExport.SubjectPartTenWords | exchange/api.py:93 | only the first ten subject words affect the part |
| ExchangeExport.SubjectPartOfWords | exchange/api.py:93 | for a subject of word-character words, the part is its first ten words joined by `_` |
| ExchangeExport.FileName | exchange/api.py:91-94 | a name exists iff the sender is not blank, with IndexError otherwise; the name is the `yymmdd_HHMM` stamp, `__`, the sender's first word, `__`, the subject part and `.html` |
| ExchangeExport.NormalisedRowHasName | exchange/api.py:62 | every normalised row has a file name |
| ExchangeExport.SameMinuteSameName | exchange/api.py:91 | the name depends on the date-time to the minute only |
| ExchangeExport.NameIgnoresOtherColumns | exchange/api.py:91-94 | key, recipients, cc and body do not affect the name |
| ExchangeExport.WritableIffSenderWord | exchange/api.py:92-98 | the file can be written iff the sender's first word has no `/` and no NUL |
| ExchangeExport.WriteError | exchange/api.py:95-98 | a NUL in the name gives ValueError; otherwise a `/` gives OSError, since it names a sub-folder that was never created; otherwise nothing |
| ExchangeExport.NulInSenderIsValueError | exchange/api.py:92-98 | a NUL in the sender's first word stops the export at that row with ValueError |
| ExchangeExport.ExportAll | exchange/api.py:89-98 | writing never removes a file already in the folder |
| ExchangeExport.LastWriterWins | exchange/api.py:96-98 | after a successful export a row's file holds that row's body unless a later row has the same name |
| ExchangeExport.ExportKeepsOthers | exchange/api.py:96-98 | a file no row is written to keeps its content |
| ExchangeExport.ExportWritesOnlyRowFiles | exchange/api.py:96-98 | every file afterwards was there before or is some row's file |
| ExchangeExport.IdText | exchange/api.py:121 | `str(id)` has no blank and starts with a digit or `-` |
| ExchangeExport.Label | exchange/api.py:121 | the key's text, `" - "`, the `yymmdd HH:MM` stamp, `" - "` and the subject, each at its place |
| ExchangeExport.Labels | exchange/api.py:120-123 | one label per record, in order |
| ExchangeExport.Listed | exchange/api.py:116-117 | an absent or empty list of records is replaced by the whole table |
| ExchangeExport.Choices | exchange/api.py:118-124 | `"Exit"` first, followed by each record's `id - yymmdd HH:MM - subject` |
| ExchangeExport.SelectRecords | exchange/api.py:115-129 | None iff `"Exit"` is chosen; otherwise the chosen entry is some record's label and the result is that record's `str(id)` |
| ExchangeExport.LabelSplitsBack | exchange/api.py:121-128 | a label cut at its first `" - "` is the key's text |
| ExchangeExport.SelectRowRoundTrip | exchange/api.py:115-129 | choosing a record's label returns its key, which reads back as the key |
| ExchangeExport.NonBlankLines | exchange/api.py:135 | the kept lines are not blank and come from the input |
| ExchangeExport.NonBlankLinesAppend | exchange/api.py:135 | dropping blank lines keeps the order |
| ExchangeExport.NonBlankLinesKeepsAll | exchange/api.py:135 | lines none of which is blank are all kept |
| ExchangeExport.KeptLines | exchange/api.py:135-136 | the first `min(n, 40)` of the `n` non-blank lines, in order; none blank, none with a newline |
| ExchangeExport.TrimLines | exchange/api.py:135-136 | the result is empty iff no line is kept, and otherwise splits back into exactly the kept lines |
| ExchangeExport.ShortTextKeepsAllLines | exchange/api.py:136 | with forty non-blank lines or fewer, only blank lines are dropped |
| ExchangeExport.TrimLinesIdempotent | exchange/api.py:135-136 | trimming a trimmed text changes nothing |
| MailExportMain.SetAttr | mail_export/__main__.py:64 | the attribute set reads back as the value given, and every other attribute is unchanged |
| MailExportMain.GetAttr | mail_export/__main__.py:63 | `getattr` reads the credential attribute named |
| MailExportMain.Fallback | mail_export/__main__.py:63-64 | a given credential is kept; a missing one takes the variable's value when it is set and stays missing otherwise |
| MailExportMain.EnvGet | mail_export/__main__.py:64 | a value iff the variable is set, and then its value |
| MailExportMain.GetArgs | mail_export/__main__.py:57-65 | exit status 1 iff download-now and a truthy purge value; otherwise the arguments with a missing e-mail or password taken from `EMAIL` / `PASSWORD` and nothing else changed |
| MailExportMain.Bitem | mail_export/__main__.py:68-74 | a prefix of the entry in which no `" - "` starts, followed by `" - "` or by the end of the entry |
| MailExportMain.BitemFirstField | mail_export/__main__.py:68-74 | the whole entry when it has no `" - "`, otherwise the text before the first one |
| MailExportMain.BitemOfLabel | mail_export/__main__.py:74 | `bitem` of a pick-list label is the record's key |
| MailExportMain.MenuItems | mail_export/__main__.py:92-103 | the eight fixed entries first, and nine entries iff e-mail and password are both truthy |
| MailExportMain.Keys | mail_export/__main__.py:104 | the choices are the entries' labels, in order |
| MailExportMain.Dispatch | mail_export/__main__.py:105 | the action run is the one of an entry carrying the chosen label |
| MailExportMain.MenuLabelsDistinct | mail_export/__main__.py:92-103 | no two menu entries share a label |
| MailExportMain.DownloadOfferedIffCredentials | mail_export/__main__.py:102-103 | "Download from account", and any download action, is offered iff both credentials are truthy |
| MailExportMain.FixedEntriesDispatch | mail_export/__main__.py:92-105 | each fixed label runs its own action, with or without credentials |
| MailExportMain.Menu.constructor | mail_export/__main__.py:78-80 | the menu holds the given arguments and `Email` object |
| MailExportMain.Menu.ResetFilters | mail_export/__main__.py:145-150 | keyword, date range and folder are reset; the table, and so `email.Valid()`, is unchanged |
| MailExportMain.Menu.GetMailCreds | mail_export/__main__.py:107-115 | the two answers become the e-mail and the password; the table is unchanged |
| MailExportMain.Menu.GetRange | mail_export/__main__.py:117-126 | the two answers become the date range; the table is unchanged |
| MailExportMain.Menu.GetSearchWord | mail_export/__main__.py:139-143 | the typed words become the keyword filter; the table is unchanged |
| MailExportMain.MainConstructionRejected | mail_export/__main__.py:179 | the namespace passes keywords `Email.__init__` does not accept |
| MailExportMain.RunMain | mail_export/__main__.py:176-184 | exit 1 on the argument check; otherwise download and exit 0 iff download-now or a truthy purge value, else show the menu with the e-mail and password taken from the arguments or, when unset, the `EMAIL` and `PASSWORD` environment variables |

## Left out

- The Exchange connection: credentials, autodiscovery, the inbox query and
  its total. The inbox is a parameter, a sequence listed newest first.
- SQLite and peewee. The table is a sequence of rows in key order, and a
  select is assumed to return that order.
  - Keys are SQLite rowids. An insert takes one more than the last key, and
    rowid overflow is not modelled.
  - A NOT NULL violation is the `IntegrityError` fault.
- `FindRecords` requires a search word without `%` or `_`. The wildcard
  semantics of LIKE are not modelled, and case folding is ASCII only, as
  SQLite does it.
- `\d` and `\w` are the ASCII classes. The non-ASCII digits and letters that
  Python's Unicode patterns also accept are not modelled. `IsoFormat` pads years
  below 1000 to four digits, which the platform's `strftime` may not do. Time zones are not
  modelled.
- ParseIsoText: says nothing of canonical texts whose fields lie outside the
  pattern's own ranges, such as month 13 (no match) or second 62 (unconverted
  data). The only caller parses the `strftime` output of a real date-time,
  which always lies within them.
- `htmllaundry.sanitize` and `markdownify` in `format_html`: `TrimLines`
  takes the converted text as its parameter.
- The file system: the output folder is a map from name to content. Two
  failures are modelled: a name holding NUL gives ValueError, and a name
  holding `/` gives OSError. Not modelled:
  - `mkdir`;
  - a sub-folder that already happens to exist;
  - the other failures: name length, permissions, encoding.
- Display only: `print_db_records_table`, `show_record`, `Menu.info`, the
  rich console, progress bar and logging (`init_log`).
- The prompts of bullet and `input()`: each answer is a parameter.
  - The date pattern the range prompt validates with is not modelled.
  - The `while True` loop of `Menu.main`, which redraws and asks again, is
    modelled only as the entries it builds (`MenuItems`) and the action it
    looks up (`Dispatch`).
- Methods called by `__main__.py` that `exchange/api.py` does not define are
  not part of this model: `apply_filter`, `print_db_status`,
  `db_get_folders`, `process_mail` and the `filtered=` arguments. What
  depends on them is left out: `get_folder`, `display_filtered_email`,
  `save_filtered_emails`, and the download in `main`, which becomes the
  outcome `DownloadedThenExited(0)`.
- The filter attributes are not declared in `exchange/api.py`. They are
  modelled as fields of `Email` starting unset. The list that `get_range`
  assigns is modelled as a pair.
- argparse itself: `GetArgs` starts from the parsed namespace.
- `main.py`, `setup.py` and `richlog/api.py` are not part of this model.

## Findings

| source | as written | input that shows it | evidently intended | confidence | as-written member | corrected member |
|---|---|---|---|---|---|---|
| mail_export/__main__.py:179 | `Email(**args.__dict__)` passes every parsed attribute as a keyword, but `Email.__init__` (exchange/api.py:34) accepts only `filename`, `email` and `password` | any command line: the namespace always has `database` (and five more), so the call raises TypeError before the menu or a download | build `Email` from the database file, the e-mail and the password | not executed | MailExportMain.MainConstructionRejected | MailExportMain.RunMain |
