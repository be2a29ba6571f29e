# Task importer and transcript grabber — a Dafny model

Two small command-line scripts are modelled here.

- `todoist_add.py` imports tasks from the newest CSV in the Downloads folders into a
  Todoist project. It picks the CSV file and normalises each row's headers and values.
  It then parses the CONTENT cell into a title, `@labels` and a `/WeekN` section, and
  maps the PRIORITY cell onto Todoist's inverted 1..4 scale. It builds the due
  date-time from DUE_DATE and DUE_TIME, and finally decides which fields go into the
  task payload.
- `YTDOIT.py` pulls a YouTube video id out of a URL with an anchored regular
  expression. It joins transcript chunks into one text, and maps playlist entries to
  items. It assembles the combined playlist text from rule-framed blocks, and routes
  each input line to quit, a playlist grab or a single-video grab.

The model is functional. Every operation is a pure function over immutable data:
`seq`, `map`, `Option` and `Result`. Everything the scripts get from outside comes in
as a parameter:

- the file system: `CsvSelect.FileSystem`, with `isFile`, `isDir`, `glob` and the
  creation-time key;
- the date parser with its time-zone rendering: a `render` function;
- the transcript service and the playlist extractor: functions and values handed to
  `Transcript`;
- the Todoist section map: a `map<string, string>`.

Modules:

| module | file | what it holds |
|---|---|---|
| `Wrappers` | wrappers.dfy | `Option`, `Result` |
| `Seqs` | seqs.dfy | `Filter`, `Map` and their append laws |
| `Text` | text.dfy | Python's `split()`, `strip()`, `join`, ASCII `upper()`/`lower()`, substring test |
| `Content` | content.dfy | `parse_content` and `SECTION_PAT` |
| `Priority` | priority.dfy | `to_priority` |
| `Due` | due.dfy | the control flow of `to_iso` |
| `Payload` | payload.dfy | the payload decision of `create_task` |
| `Rows` | rows.dfy | `read_rows` normalisation, one row of `main`, the `main` loop |
| `CsvSelect` | csv_select.dfy | `_candidate_csvs`, `latest_downloaded_csv` |
| `VideoId` | video_id.dfy | `VIDEO_ID_RX`, `video_id_from_url` |
| `Transcript` | transcript.dfy | chunk joining, playlist items, playlist text, `grab_single`'s id check |
| `Cli` | cli.dfy | the `__main__` loop of the grabber |

The model follows the code wherever a reader might expect otherwise:

- When several `/week` tokens appear, the last one sets the section. Each match
  overwrites `section_name`.
- A missing or unrecognised priority gives 4, the most urgent level. It does not give 1.
- A missing DUE_TIME becomes `"23:59"`. A non-empty date therefore always yields a
  date-time and never an all-day date.
- Labels form a list in token order, and duplicates are kept.
- A CSV row with more cells than headers makes `read_rows` raise. `csv.DictReader` puts
  the surplus cells in a list under the `None` header, and a non-empty list has no
  `strip`. The import stops at that row. Cells missing from a short row read as `""`.
- A playlist entry without an `id` still becomes an item. Its url is
  `https://youtu.be/None`, because the f-string renders `None` as text. A missing
  `title` likewise appears as `None` in its block (`Transcript.Render`).
- `SECTION_PAT` is `^/(week[_ ]?\d+)$`. Besides `_`, it admits a space between `week`
  and the digits. Its `$` also matches before a final newline. `Content.SectionOf`
  models both. Neither can occur in a token produced by `split()`.

## Model

| member | source | states |
|---|---|---|
| Text.StripLeft | todoist_add.py:112 | the result is a suffix of the input; everything dropped is whitespace, and the result does not start with whitespace |
| Text.StripRight | todoist_add.py:112 | the result is a prefix of the input; everything dropped is whitespace, and the result does not end with whitespace |
| Text.Strip | todoist_add.py:112 | the result is no longer than the input and neither starts nor ends with a whitespace character |
| Text.LemmaStripTrims | todoist_add.py:112 | the result is a contiguous piece of the input with only whitespace before it and only whitespace after it |
| Text.Words | todoist_add.py:112 | every token `split()` yields is non-empty and free of whitespace |
| Text.LemmaWordsOfAllSpace | todoist_add.py:112 | a string of whitespace only splits into no token |
| Text.LemmaWordsAtSpace | todoist_add.py:112 | a whitespace character separates: the tokens of `a + c + b` are those of `a` followed by those of `b` |
| Text.LemmaWordsOfWord | todoist_add.py:112 | a non-empty string without whitespace splits into exactly itself |
| Text.HasSubstring | YTDOIT.py:133 | the scan answers `p in s` exactly when `p` occurs at some offset of `s` |
| Text.LemmaWordsOfStrip | todoist_add.py:109-112 | stripping before splitting does not change the tokens |
| Text.LemmaBlankIffNoWords | todoist_add.py:109 | content is blank after `strip()` exactly when `split()` finds no token |
| Text.LemmaSplitJoinRoundTrip | todoist_add.py:129 | splitting space-joined non-empty, whitespace-free tokens gives back exactly those tokens |
| Text.LemmaStripJoinOfWords | todoist_add.py:129 | the trailing `.strip()` on the joined title changes nothing |
| Text.LemmaStripFixedPoint | YTDOIT.py:130 | `strip()` leaves a string unchanged exactly when it neither starts nor ends with whitespace |
| Text.LemmaStripIdempotent | todoist_add.py:171 | stripping twice is stripping once |
| Text.LemmaWordsOfJoin | YTDOIT.py:52 | the tokens of a space-joined list are the tokens of its items, in order |
| Seqs.Filter | todoist_add.py:116-127 | a filter keeps exactly the elements satisfying the test, and nothing else |
| Seqs.LemmaFilterAppend | todoist_add.py:116-127 | filtering distributes over concatenation, so order is kept |
| Content.LemmaSectionOf | todoist_add.py:100-125 | a token gives section `"Week" + d` exactly when the case-insensitive pattern matches it with digits `d`; the separator is dropped and leading zeros are kept; any other token gives no section |
| Content.LemmaScanLabels | todoist_add.py:116-119 | the loop collects every label token (`@` plus at least one character), minus its `@`, in order, duplicates kept |
| Content.LemmaScanTitle | todoist_add.py:116-127 | the loop collects exactly the tokens that are neither labels nor section markers, in order |
| Content.LemmaScanNoSection | todoist_add.py:114-126 | no section is set exactly when no token is a section marker |
| Content.LemmaScanLastSection | todoist_add.py:120-126 | when several markers appear, the last one sets the section |
| Content.ParseContent | todoist_add.py:102-130 | blank content gives `("", [], None)`; otherwise labels, title and section are the filtered token lists above, and the last marker wins |
| Content.LemmaTitleRoundTrip | todoist_add.py:127-129 | re-splitting the title gives exactly the title tokens; no label token or section marker ever reaches it |
| Content.LemmaBareAtStaysInTitle | todoist_add.py:117-127 | a bare `@` is not a label and stays in the title |
| Priority.ToPriority | todoist_add.py:81-88 | the result is always in 1..4; a value naming level n (`n`, `Pn`, `pn`, `PPn`, ... after strip) gives 5 - n; `None` and everything else give 4 |
| Priority.LemmaStripPDigit | todoist_add.py:85-86 | `upper().lstrip("P")` is the single digit `d` exactly when the value is a run of `p`/`P` followed by `d` |
| Due.ToIso | todoist_add.py:90-97 | no date-time exactly when the stripped date is empty; otherwise the parser sees `date time`, and an input it rejects is an error carrying that text |
| Due.LemmaMissingTimeIsEndOfDay | todoist_add.py:93 | a missing or empty time behaves as `"23:59"`: a non-empty date is parsed as that day at 23:59, never as an all-day value |
| Due.LemmaToIsoCongruence | todoist_add.py:92-96 | the outcome depends on the inputs only through the stripped date and the stripped (or defaulted) time |
| Due.LemmaStrippedInputs | todoist_add.py:92-93 | stripping the cells beforehand, as `read_rows` does, does not change the outcome unless a blank time is emptied |
| Due.LemmaBlankTimeIsNotDefaulted | todoist_add.py:93 | a whitespace-only time is truthy, so it is not defaulted and the parser sees an empty time |
| Payload.BuildPayload | todoist_add.py:135-154 | an empty title gives no payload; a named section whose id is missing or empty is an error; otherwise content, project id, labels and priority are always present, description only when non-empty, due date-time and `due_lang = "en"` together and only for a truthy due value, and the section id only for a named section |
| Rows.LemmaDictOfKeys | todoist_add.py:171 | a dict built from pairs has exactly the pairs' keys |
| Rows.LemmaDictOfLastWins | todoist_add.py:171 | each key maps to the value of the last pair carrying it |
| Rows.LemmaMapHasKey | todoist_add.py:171 | a list of mapped pairs carries a key exactly when some element maps to a pair with that key |
| Rows.NormalizeRow | todoist_add.py:166-171 | a row fails with the surplus-cells error exactly when some field holds a non-empty list of surplus cells, on which `.strip()` raises |
| Rows.LemmaNormalizeRowKeys | todoist_add.py:166-171 | a normalised row's keys are exactly the stripped, upper-cased headers |
| Rows.LemmaNormalizeRowLastWins | todoist_add.py:166-171 | each key holds the stripped cell (a missing cell read as `""`) of the last field whose header normalises to it |
| Rows.ProcessRow | todoist_add.py:186-194 | a malformed due value stops the import even for a row with an empty title, with the parser's input as error; with a valid due value the outcome is `Submit`'s |
| Rows.Submit | todoist_add.py:187-194 | an empty title is skipped; for a titled row the outcome is an error exactly when its section is named but has no truthy id, otherwise a payload with the parsed title and labels, the project id, the row's priority, the description only when non-empty, the due value only when truthy, and the section's id only when a section is named |
| Rows.ImportRow | todoist_add.py:166-194 | a row with surplus cells fails before anything else; any other row is normalised and then processed |
| Rows.RunRows | todoist_add.py:185-197 | rows run in order until the first one raises; the counter counts every row that did not raise, posted or skipped; the posted tasks are the payloads of those rows, in order |
| Rows.LemmaPostedAtMostCount | todoist_add.py:195-197 | the reported count is at least the number of posted tasks, and equal to it exactly when no row was skipped |
| Rows.ImportRows | todoist_add.py:166-197 | the import ends without error exactly when every row succeeds; otherwise it stops at the first failing row with that row's error; the posted tasks are the payloads of the rows before the stop, in order |
| Rows.LemmaExtraCellsStopImport | todoist_add.py:166-171 | no row at or after one with surplus cells is processed |
| CsvSelect.FirstIndex | todoist_add.py:30 | the position of the first occurrence, or the length when absent |
| CsvSelect.Dedupe | todoist_add.py:30 | `dict.fromkeys` keeps each file once, the same set of files, in order of first occurrence |
| CsvSelect.CandidateCsvs | todoist_add.py:23-30 | the candidates are distinct, are exactly the files globbed as `*.csv` or `*.CSV` in the given folders, and come in the order of their first glob result |
| CsvSelect.NewestIndex | todoist_add.py:48 | the chosen index has the greatest creation key, and every earlier file's key is strictly smaller; this is the stable reverse sort's first element |
| CsvSelect.LemmaNewestIsUnique | todoist_add.py:48 | that choice is unique: ties go to the earliest file |
| CsvSelect.Newest | todoist_add.py:46-50 | an empty candidate list is the not-found error; otherwise the newest candidate |
| CsvSelect.LatestDownloadedCsv | todoist_add.py:37-65 | an explicit file is used as is; an explicit folder gives its newest CSV or a no-CSV error; any other explicit path is not found; with no explicit path the three Downloads folders are pooled |
| CsvSelect.LemmaChosenIsCandidate | todoist_add.py:37-65 | the chosen file is the explicit file or one of the globbed CSVs |
| VideoId.VideoIdFromUrl | YTDOIT.py:24-42 | the result is `None` or an 11-character id over `A-Za-z0-9_-`; it is `Some(id)` exactly when the regular expression matches with that id (optional `http://` or `https://`, optional `www.`, one of the four hosts, case-sensitive, anchored at the start) |
| VideoId.LemmaMatcherComplete | YTDOIT.py:24-32 | every way the regular expression can match leads the step-by-step matcher to the same id |
| VideoId.LemmaMatcherSound | YTDOIT.py:24-32 | every id the step-by-step matcher returns is a match of the regular expression |
| VideoId.LemmaTrailingTextIgnored | YTDOIT.py:29-42 | text after the id does not change the result |
| VideoId.LemmaExampleShortLink | YTDOIT.py:24-42 | a `youtu.be` link with a query yields the 11 characters after the host |
| VideoId.LemmaExampleUpperCaseHost | YTDOIT.py:24-42 | an upper-case host is not recognised |
| Transcript.JoinChunks | YTDOIT.py:52 | no chunk gives `""`; one chunk gives its stripped text; the tokens of the joined text are the tokens of the chunks, in order |
| Transcript.LemmaJoinChunksAppend | YTDOIT.py:52 | chunks keep their order: two runs join as the first run's text, a space, the second run's text |
| Transcript.FetchTranscriptText | YTDOIT.py:44-52 | a disabled or missing transcript gives `""`; otherwise the text is the joined chunks, so it carries their tokens in order and a single chunk's text exactly |
| Transcript.PlaylistItems | YTDOIT.py:74-84 | `None` and empty entries are skipped, the rest keep their order, and each url is `https://youtu.be/` followed by the rendered id |
| Transcript.PlaylistText | YTDOIT.py:101-117 | an empty playlist is an error; a one-video playlist is that video's block |
| Transcript.LemmaPlaylistTextAppend | YTDOIT.py:117 | blocks are joined by newlines in playlist order: a split playlist's text is the first part's text, a newline, the second part's text |
| Transcript.LemmaPlaylistTextHead | YTDOIT.py:113-117 | the combined text starts with the first video's rule-framed title |
| Transcript.GrabSingle | YTDOIT.py:88-93 | a URL without a parsable id is an error before anything is fetched; otherwise the text is the transcript of the parsed id |
| Cli.Dispatch | YTDOIT.py:130-136 | the stripped line quits exactly when it is `q` or `Q`; otherwise it goes to the playlist path exactly when it contains `list`, else to the single-video path, with the stripped line as URL |
| Cli.LemmaLowerIsQ | YTDOIT.py:131 | `lower() == "q"` holds exactly for `q` and `Q` |
| Cli.UntilQuit | YTDOIT.py:128-132 | the longest quit-free prefix of the commands |
| Cli.Session | YTDOIT.py:128-138 | one grab per line, in order, up to the first quitting line |
| Cli.LemmaSessionIgnoresAfterQuit | YTDOIT.py:131-132 | nothing typed after the quitting line has any effect |
| Cli.LemmaSessionAppend | YTDOIT.py:128-138 | quit-free input followed by more input is the grabs of the first part followed by the session of the rest |
| Cli.LemmaListedVideoGoesToPlaylist | YTDOIT.py:130-134 | every line naming a single video whose text contains `list` anywhere is routed to the playlist path |
| Cli.LemmaListInIdIsAVideoId | YTDOIT.py:24-42 | `https://youtu.be/listABCDEFG` names the single video `listABCDEFG` |
| Cli.LemmaListInIdGoesToPlaylist | YTDOIT.py:133-134 | that same URL is nevertheless routed to the playlist path, because the test is a plain substring test |

## Left out

- HTTP: `get_project_id`, `get_sections_map` and the task POST in `create_task` are network calls. The project id and the section map are inputs. `BuildPayload` stops at the payload it would send.
- The token check with `sys.exit` at import time, and `argparse`, are process plumbing. The `--csv` value is the `explicit` input.
- The file system is abstracted. This covers `glob`, `Path.is_file`/`is_dir`, `open` with `csv.DictReader`, and `write_file`. `_file_created` is abstracted too: birth time, falling back to modification time when the birth time is missing or zero. It becomes the `created` key of `CsvSelect.FileSystem`. Rows reach `Rows.NormalizeRow` as lists of `(header, cell)` fields, as `csv.DictReader` yields them: a missing cell is `Missing`, and the surplus cells of a long row are one `Extra` list under the `None` header.
- CsvSelect.FileSystem: a file's creation time is an `int` key, not a float. Only the order of the keys matters to the choice, and ties are modelled.
- `LatestDownloadedCsv` returns an explicit file path as given. `expanduser` and the normalisation `str(Path(...))` applies are not modelled, because they depend on the user's home directory and path-syntax rules outside these scripts.
- `strptime` with `%Y-%m-%d %H:%M`, `ZoneInfo("Australia/Sydney")` and `isoformat()` are foreign library code with time-zone rules. They are the `render` parameter of `Due.ToIso`: it returns the rendered date-time, or `None` where `strptime` raises.
- `clean_playlist_url` is not modelled. It depends on `urlparse`/`parse_qs` query semantics. `PlaylistText` starts from the items the extractor returned.
- `yt_dlp`, the transcript API, `pyperclip` and `time.sleep` are external services, the clipboard and rate limiting. They become function parameters or are dropped. Transcript errors other than disabled or missing transcripts are not modelled.
- Printed progress and warning messages are not modelled.
- `Transcript.PlaylistItems`: an `entries` key that is present with the value `None` would make the Python loop raise. The model reads a missing key as no entries and has no separate present-but-`None` case.
- `Cli.Session`: errors raised by a grab are caught and printed, so they do not affect which lines are read. The session is therefore modelled as the commands issued. When input ends, `input()` raises `EOFError`, which the same `except` catches, so the Python loop repeats without end. The model covers only finite input up to the first quit.
- `Text.Upper`, `Text.Lower`: case mapping covers ASCII letters only. Python's Unicode mapping also changes other letters. The priority, section and quit tests only compare the result against ASCII text, but a non-ASCII letter whose mapping yields an ASCII one (such as the Kelvin sign, which lower-cases to `k`) is not modelled.
- `Content.SectionOf`: `\d` is read as the ASCII digits `0-9`. Python's `\d` on a `str` also matches other Unicode decimal digits.
