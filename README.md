# epson_label print pipeline, modelled in Dafny

This project models the two label print jobs of the `epson_label` Home
Assistant component (`__init__.py`) and proves properties of that model.

- **The extended job** (`_print_job_extended`) scans free text for markup
  directives `$NAME(ARGS)` using the regular expression
  `\$([A-Z0-9_]+)\((.*?)\)`. It sends the non-empty text between directives
  as text. It splits each directive's arguments on commas and strips each
  one. It hands each directive to `_execute_command`.
- **The interpreter** (`_execute_command`) turns one directive into at most
  one printer call, filling in defaults for missing arguments, or logs a
  warning.
- **The simple job** (`_print_job`) sends:
  1. the size;
  2. one text call per line;
  3. an optional feed;
  4. an optional cut.

The printer (`escpos.printer.Network`) is modelled as a sink, `Escpos.Printer`.
Every call the jobs make on it appends one `Op` value to its `ops` log. Each
job method opens its own printer, as the source does, and returns the log and
the warnings it would have logged.

Files:

| file | contents |
|---|---|
| `options.dfy` | `Option` |
| `seqs.dfy` | regrouping facts about concatenation and slicing, shared by the proofs |
| `pystr.dfy` | Python's `str.strip()`, `str.split(",")`, `str.lower()`, `"\n" * n`, `int()` and `str()` on integers |
| `escpos.dfy` | `Op`, one value per printer call; the `Printer` sink class |
| `markup.dfy` | the pattern, both declaratively (`IsMatch`) and as the engine runs it (`MatchAt`, `FindMatch`); the segments of a scan; coverage, shape and locality of the scan |
| `commands.dfy` | `_execute_command` as the function `Command`, and one rule lemma per command |
| `jobs.dfy` | `ExecuteCommand` and the loop of `PrintJobExtended` against the printer; `PrintJob`; writing calls as markup and the round trip back; worked examples |

Notes on what the code does, which the model follows:

- `FEED(n)` sends the text `"\n" * n`, not a separate feed call. When
  `n <= 0` that text is empty, and it is still sent. When `n` does not fit
  a `Py_ssize_t` (64 bits), the repetition raises `OverflowError`: the call
  is not sent and `Failed to execute command` is logged.
- A non-integer argument to `SIZE`, `FEED`, `BARCODE` or `QR` does not fall
  back to the default. `int()` raises, the call is not sent, and the warning
  `Failed to execute command` is logged.
- These directives send nothing and log nothing:
  - `ALIGN` with a value outside left, center and right;
  - `BARCODE` with fewer than two arguments;
  - `QR` without arguments.
- Warnings are returned in order. They carry no segment index.

## Model

| member | source | states |
|---|---|---|
| `PyStr.Strip` | __init__.py:168 | `arg.strip()` is the slice of its input between a leading and a trailing run of whitespace, and has no whitespace at either end. It returns its input unchanged exactly when the input has none. |
| `PyStr.StripKeepsOut` | __init__.py:168 | Stripping only removes characters: a character absent from the input is absent from the result. |
| `PyStr.Split` | __init__.py:168 | `split(",")` gives one more piece than there are commas. No piece holds a comma, and joining the pieces with commas gives the input back. |
| `PyStr.Lower` | __init__.py:192 | `lower()` keeps the length, turns each letter A to Z into its own lower case and keeps every other character. So no upper-case letter is left, and text without one is unchanged. |
| `PyStr.NewLines` | __init__.py:206 | `"\n" * n` is `n` newlines when `n > 0` and empty otherwise. |
| `PyStr.ParseInt` | __init__.py:187 | `int(s)` succeeds exactly when `s` holds no information separator (U+001C to U+001F) and the stripped text is an optional sign followed by one or more digits. |
| `PyStr.ParseIntToString` | __init__.py:187-188 | `int(str(n)) == n` for every integer, and `str(n)` has no surrounding whitespace. |
| `Markup.MatchAtSound` | __init__.py:157 | What the engine matches at a position is the text `$NAME(ARGS)`. `NAME` is non-empty and drawn from `[A-Z0-9_]`. `ARGS` holds neither `)` nor a newline. |
| `Markup.MatchAtComplete` | __init__.py:157 | Every match of the pattern that starts at a position is the one the engine returns there, so a match at a position is unique. |
| `Markup.MatchAt` | __init__.py:157 | The engine's attempt at one position: a match, when found, starts there and ends inside the text. `MatchAtSound` and `MatchAtComplete` state that it finds exactly the matches of the pattern anchored there. |
| `Markup.FindMatch` | __init__.py:160 | `pattern.search(text, pos)`: a match, when found, lies between the position and the end. `FindMatchFound`, `FindMatchFirst` and `FindMatchLeftmost` state that it is the leftmost match at or after the position. |
| `Markup.FindMatchFound` | __init__.py:160 | The search returns the engine's match at the position where it stops. |
| `Markup.FindMatchFirst` | __init__.py:160 | The search skips only positions where the engine finds no match. |
| `Markup.FindMatchLeftmost` | __init__.py:160 | While any match starts at or after the position, the search succeeds. It returns the leftmost such match. |
| `Markup.SplitArgs` | __init__.py:168 | An empty argument text gives no arguments. Otherwise argument `k` is the stripped `k`-th comma-separated piece of the text, so there is one argument per comma, plus one. Every argument is stripped and holds no comma. |
| `Markup.ScanCovers` | __init__.py:159-177 | Concatenating the scanned segments' texts gives: the text before each match, each `$NAME(ARGS)` match, then the remaining text. The result is exactly the input. |
| `Markup.ScanFrom` | __init__.py:159-177 | The segments the loop produces from `last_pos` on: the text before each match, the match, then the rest. Its properties are those of `ScanFromCovers`, `ScanFromWellFormed` and `ScanFromShift`. |
| `Markup.Scan` | __init__.py:159-177 | The segments of a whole job text. Its properties are those of `ScanCovers` and `ScanWellFormed`. |
| `Markup.ScanFromCovers` | __init__.py:159-177 | The segments from `last_pos` on concatenate exactly to `text[last_pos:]`. |
| `Markup.ScanFromWellFormed` | __init__.py:157-177 | The segments from `last_pos` on are well formed, as in `ScanWellFormed`. |
| `Markup.ScanWellFormed` | __init__.py:157-177 | Every literal run is non-empty and holds no match, and no two runs are adjacent. Every directive has a valid name and argument text. |
| `Markup.ScanFromShift` | __init__.py:159-172 | Scanning `a + b` from inside `b` gives the same segments as scanning `b` alone. The scan after `last_pos` depends on nothing before it. |
| `Markup.ScanDirectiveFirst` | __init__.py:160-172 | A text that starts with a well-formed directive scans as that directive, followed by the scan of the rest. |
| `Markup.ScanLiteralFirst` | __init__.py:162-164 | A `$`-free literal at the front, followed by nothing or by a directive, scans as one literal run followed by the scan of the rest. |
| `Commands.IntArg` | __init__.py:187-188 | `int(args[i]) if len(args) > i else default` yields the default when the argument is missing, and `int()` of the argument when it is present. |
| `Commands.Flag` | __init__.py:196-202 | The `BOLD` and `INVERT` value is on without an argument, and otherwise on exactly when the argument lower-cases to `true`. |
| `Commands.Command` | __init__.py:183-230 | A sent call is always of the kind its command stands for, and a `FEED` text is fewer than 2^63 newlines. The unknown-command warning is given exactly for names outside the eight commands. Any other warning is a failed numeric command: a non-integer argument, or a `FEED` count outside `Py_ssize_t`. |
| `Commands.SizeRule` | __init__.py:186-189 | `SIZE` defaults to width 1 and to a height equal to the width. A non-integer argument leads to a warning and no call. |
| `Commands.AlignRule` | __init__.py:191-194 | `ALIGN` defaults to `left`. The value is lower-cased. A value other than left, center or right sends nothing and logs nothing. |
| `Commands.FlagRule` | __init__.py:196-202 | `BOLD` and `INVERT` are on without an argument. With an argument, they are on exactly when it lower-cases to `true`. |
| `Commands.FeedRule` | __init__.py:204-206 | `FEED` sends one newline by default, and `n` newlines as text for `n`. A non-integer argument, or a count that does not fit a `Py_ssize_t`, leads to a warning and no call. |
| `Commands.FeedOverflow` | __init__.py:204-206 | For every count outside `Py_ssize_t`, `$FEED(n)` with `n` written out is a logged failure and sends nothing. |
| `Commands.CutRule` | __init__.py:208-209 | `CUT` always sends a cut. |
| `Commands.BarcodeRule` | __init__.py:211-218 | `BARCODE` with fewer than two arguments sends nothing. Otherwise width defaults to 3 and height to 100, and a non-integer width or height leads to a warning. |
| `Commands.QrRule` | __init__.py:220-224 | `QR` without arguments sends nothing. Size defaults to 3, and a non-integer size leads to a warning. |
| `Commands.AlignExamples` | __init__.py:191-194 | `ALIGN(Center)` selects centring; `ALIGN(up)` is dropped. |
| `Escpos.Printer.constructor` | __init__.py:147 | A new connection is open and has sent nothing. |
| `Escpos.Printer.Apply` | __init__.py:164 | A call on the printer appends exactly that call to its log. |
| `Escpos.Printer.Close` | __init__.py:179 | Closing sends nothing more. |
| `Jobs.ExecuteCommand` | __init__.py:183-230 | The printer's log grows by exactly the call `Command` sends, if any. The returned warning is the one `Command` logs, if any. |
| `Jobs.SendMatch` | __init__.py:162-170 | One turn of the loop appends the non-empty text before the match, then the directive's call. |
| `Jobs.LoopStep` | __init__.py:160-172 | After one turn, what has been sent, followed by the interpretation of the scan from the match's end, is still the whole job's calls. The same holds for warnings. |
| `Jobs.PrintJobExtended` | __init__.py:144-181 | The extended job sends exactly the interpretation of the scan of its text, and logs exactly its warnings. |
| `Jobs.InterpretStep` | __init__.py:162-172 | One match of the scan sends the non-empty text before it and then the directive's call, in that order, before everything after it. |
| `Jobs.InterpretLast` | __init__.py:175-177 | After the last match, only the remaining text is sent, if it is non-empty. |
| `Jobs.InterpretAppend` | __init__.py:160-177 | Interpretation goes segment by segment. The calls and warnings of two runs of segments are those of the first followed by those of the second. |
| `Jobs.Interpret` | __init__.py:160-177 | The calls the segments of a scan send, in order: at most one per segment. |
| `Jobs.Diagnostics` | __init__.py:226-230 | The warnings the segments of a scan log, in order: at most one per segment, and none for literal text alone. |
| `Jobs.JobOps` | __init__.py:144-181 | The calls of the extended job for a text: the interpretation of its scan. `PrintJobExtended` proves the loop sends exactly these, and `SpellRoundTrip` that written-out calls come back unchanged. |
| `Jobs.JobWarnings` | __init__.py:183-230 | The warnings of the extended job for a text. `PrintJobExtended` proves the loop logs exactly these. |
| `Jobs.DirectiveDropped` | __init__.py:226-230 | A failed or unknown directive costs only itself. The segments around it send what they would send without it, in order, and its warning is logged in its place. |
| `Jobs.SimpleJob` | __init__.py:130-138 | The simple job's calls are, in order: the size, then each line with a newline, then the feed exactly when `feed_lines > 0`, then the cut exactly when asked for. |
| `Jobs.LineTexts` | __init__.py:131-132 | One text call per line, in order, each line followed by a newline. |
| `Jobs.PrintJob` | __init__.py:126-142 | The simple job method sends exactly `SimpleJob`'s calls. |
| `Jobs.SpellCommand` | __init__.py:183-224 | Writing a call other than text as `$NAME(ARGS)` yields text the interpreter turns back into exactly that call. |
| `Jobs.SpellRoundTrip` | __init__.py:144-230 | The markup written for a sequence of calls makes the extended job send exactly that sequence and log nothing. Every call must be writable, and no two text calls may be adjacent. |
| `Jobs.InterpretLiteralDirectiveLiteral` | __init__.py:160-177 | Literal, directive, literal sends the first literal, the directive's call if any, then the second literal. |
| `Jobs.UnknownCommandExample` | __init__.py:226-227 | `A$FOO(1)B` scans into three segments and sends `A` then `B`, logging one unknown-command warning. |
| `Jobs.MixedExample` | __init__.py:160-177 | `Hello $BOLD(true)World$CUT()` sends the text, bold, the text, then the cut, and logs nothing. |
| `Jobs.ShortBarcodeExample` | __init__.py:211-213 | `$BARCODE(123)` sends nothing and logs nothing. |
| `Jobs.EmptyJob` | __init__.py:159-177 | The empty job has no segments, sends nothing and logs nothing. |

## Left out

- The network transport: the printer is a sink that records calls. The ESC/POS bytes behind each call are not modelled (`escpos.printer.Network`, `p.close()`).
- Exceptions raised inside the `escpos` library are not modelled. That includes `p.barcode` rejecting a symbology or `p.set` rejecting a size, which the source logs as `Failed to execute command`. The library is not part of this model.
- The outer `except` of both jobs is not modelled. It stops a job when the printer connection fails, and the printer here never fails.
- Logging: warnings are returned as values; the logger is not modelled.
- The Home Assistant services are not modelled: `async_setup`, the voluptuous schemas, target resolution, `async_setup_entry` and `async_unload_entry`. They only pass arguments to the jobs. The service wraps a single string into a one-line list (`__init__.py:91-92`); `PrintJob` takes the list.
- `config_flow.py`, `coordinator.py` and `binary_sensor.py` are I/O and UI. They are not part of this model.
- PyStr.ParseInt: accepts an optional sign and ASCII digits only. Python's `int()` also accepts underscores between digits and non-ASCII decimal digits. It also raises `ValueError` for more than 4300 digits (`sys.int_max_str_digits`), a limit the interpreter's configuration can change or switch off. None of these is modelled.
- PyStr.NewLines: is total. Python's `"\n" * n` raises `OverflowError` outside `Py_ssize_t`, which `Commands.Command` checks before it repeats. It raises `MemoryError` when the text cannot be allocated, which is not modelled.
- Commands.FeedRule: a count that fits a `Py_ssize_t` but whose newlines cannot be allocated makes the source raise `MemoryError` and log `Failed to execute command`; the model sends the text, because available memory is not part of the model.
- Jobs.PrintJob: does not guard `feed_lines` against `Py_ssize_t`. The service schema limits `feed_lines` to 0 to 20 (`__init__.py:35`), so the overflow cannot reach the job.
- PyStr.Lower: folds the ASCII letters A to Z only. Python's `str.lower()` also folds non-ASCII letters; `lower()` is only compared against ASCII words here.
- `host` and `port` are stored in the printer and have no other effect.
