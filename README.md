# RFID gate access log: event router and log store

`Log_Sistemi.py` connects to a card-reader microcontroller over a serial line.
It reads newline-terminated text lines and keeps an append-only CSV log of
granted accesses. This project models the script's core in Dafny and proves
properties of that model. The core is three steps:

- **line routing**: each decoded line is stripped of surrounding whitespace and
  classified by its literal prefix. `LOG` is tested first, then `ALARM`. A LOG
  line is split on commas with Python's `str.split` semantics and is accepted
  only with at least three pieces. Piece 1 is the user and piece 2 the card
  identifier; further pieces are ignored. An ALARM line is echoed to the
  console as a security warning. Every other line, and every line that failed
  to decode, is ignored.
- **timestamps**: an accepted LOG event is stamped with the current local
  time, formatted `%d.%m.%Y` and `%H:%M:%S`.
- **log store**: the CSV file gets the header row `Tarih,Saat,Kullanici,Kart_ID`
  when it does not exist yet. Each accepted event then appends one row
  `[date, time, user, card]` at its end.

Modules:

- `Wrappers`: `Option`.
- `Text`: Python `str.strip()`, `str.startswith` and `str.split(",")`.
  `IsSpace` lists the characters `str.isspace` accepts.
- `Timestamp`: clock readings (`Instant`, the component ranges of a Python
  `datetime`) and the zero-padded date and time strings.
- `Router`: `Classify` turns a line (`Option<string>`, with `None` for a line
  that failed UTF-8 decoding) into `LogEvent(user, card)`, `Alarm(line)` or
  `Ignore`. It also defines the console notices and their wording.
- `LogStore`: the file as `Option<seq<Row>>`, with `None` for "no such file".
  The class `CsvLog` holds that state in a field; its methods `EnsureHeader`
  and `Append` update it in place.
- `Ingest`: the main loop as the method `Run`, which updates a `CsvLog` one
  incoming line at a time, and `Session`, which prepares the header and then
  runs the loop. Both are proved against the value-level functions `Replay` and
  `Console`, applied to `Events(lines)`, the events the lines classify to. The
  lemmas about those functions carry the properties.

The clock is an input: each incoming line comes with the reading
`datetime.now()` would return if that line were recorded. The serial port is
modelled as the finite sequence of lines it delivers. The unbounded
`while True` loop is modelled as a run over any such finite prefix.

The header row is the one the script writes at `Log_Sistemi.py:33`: the Turkish
field names `Tarih, Saat, Kullanici, Kart_ID`.

Behaviour the model makes explicit:

- a line such as `LOGOUT,a,b` counts as a LOG line, because only the prefix is
  tested;
- `LOG,,` is accepted, with an empty user and an empty card;
- inner pieces are not stripped, so in `LOG, Alice ,X` the user is ` Alice `;
- no line can start with both `LOG` and `ALARM`, so testing `LOG` first never
  hides an alarm (`Router.PrefixesExclusive`);
- appending to an absent file creates it without a header, as Python's
  `open(..., 'a')` does.

## Model

| member | source | states |
|---|---|---|
| `Text.IsSpace` | Log_Sistemi.py:41 | definition: the characters Python's `str.isspace` accepts, which `strip()` removes; used by TrimStartSpec, TrimEndSpec, StripKeepsCore and StripOf |
| `Text.Strip` | Log_Sistemi.py:41 | definition of `strip()`; characterised by StripKeepsCore and StripOf, with StripTrimmed and StripIdempotent |
| `Text.StartsWith` | Log_Sistemi.py:46-65 | definition of `startswith`: the prefix is no longer than the line and equals its first characters; used by PrefixesExclusive and the Router lemmas |
| `Text.Split` | Log_Sistemi.py:47 | definition of `split(",")`, whose own contract states that there is always at least one piece; characterised by SplitCount, SplitPiecesFree, JoinSplit, SplitJoin, SplitAtFirst and SplitFree |
| `Text.TrimStartSpec` | Log_Sistemi.py:41 | the leading-whitespace trim keeps a suffix, drops only `str.isspace` characters, and what it keeps does not start with one |
| `Text.TrimEndSpec` | Log_Sistemi.py:41 | the trailing-whitespace trim keeps a prefix, drops only whitespace, and what it keeps does not end with whitespace |
| `Text.StripKeepsCore` | Log_Sistemi.py:41 | `strip()` returns a contiguous piece of the line between an all-whitespace prefix and an all-whitespace suffix, and the piece neither starts nor ends with whitespace |
| `Text.StripOf` | Log_Sistemi.py:41 | converse: whatever trimmed text sits between whitespace padding is exactly what `strip()` returns, so the two lemmas pin `strip()` down completely |
| `Text.StripTrimmed` | Log_Sistemi.py:41 | a line with no whitespace at either end is left as it is by `strip()` |
| `Text.StripIdempotent` | Log_Sistemi.py:41 | stripping an already stripped line changes nothing |
| `Text.SplitCount` | Log_Sistemi.py:47 | `split(",")` yields exactly one more piece than the line has commas, so empty pieces are kept |
| `Text.SplitPiecesFree` | Log_Sistemi.py:47 | no piece produced by `split(",")` contains a comma |
| `Text.JoinSplit` | Log_Sistemi.py:47 | splitting is lossless: joining the pieces with `,` gives back the line |
| `Text.SplitJoin` | Log_Sistemi.py:47 | `split(",")` undoes `",".join` for any non-empty list of comma-free pieces, so split and join are inverse |
| `Text.SplitAtFirst` | Log_Sistemi.py:47 | `split(",")` cuts at the first comma: a comma-free head followed by a comma becomes the first piece |
| `Text.SplitFree` | Log_Sistemi.py:47 | a comma-free string splits into itself alone |
| `Router.Classify` | Log_Sistemi.py:40-66 | definition of the line-to-event step: an undecodable line is skipped, otherwise the stripped line is routed; characterised by LogAcceptedIff, AlarmIff, IgnoreIff, LogLineShape and LogLineAccepted |
| `Router.Route` | Log_Sistemi.py:46-66 | definition of the `if`/`elif` on a stripped line; pinned down through Classify by the same lemmas |
| `Router.Render` | Log_Sistemi.py:63-66 | definition of the two console messages' wording; RenderEndsWithSubject states that each ends with its subject |
| `Router.PrefixesExclusive` | Log_Sistemi.py:46-65 | a line starting with `ALARM` never starts with `LOG`, so the order of the two tests cannot misroute an alarm |
| `Router.LogAcceptedIff` | Log_Sistemi.py:46-52 | a decoded line yields a LOG event if and only if its stripped form starts with `LOG` and holds at least two commas |
| `Router.AlarmIff` | Log_Sistemi.py:65-66 | a decoded line yields an alarm if and only if its stripped form starts with `ALARM`; the alarm carries the whole stripped line |
| `Router.IgnoreIff` | Log_Sistemi.py:40-65 | a line is ignored if and only if it failed to decode, carries neither tag, or is a LOG line with fewer than two commas |
| `Router.LogFieldsCommaFree` | Log_Sistemi.py:47-52 | the user and card of a LOG event never contain a comma |
| `Router.LogLineShape` | Log_Sistemi.py:46-52 | an accepted line is laid out (`Layout`) as a head starting with `LOG`, comma, user, comma, card, then its end or a comma and ignored pieces, with no comma inside head, user or card |
| `Router.LogLineAccepted` | Log_Sistemi.py:46-52 | converse: every stripped line with that layout is accepted with exactly that user and card, whatever follows the card |
| `Router.SplitLayout` | Log_Sistemi.py:47 | a line that `split(",")` cuts into at least three pieces begins with its first three pieces joined by commas, followed by its end or another comma |
| `Router.RenderEndsWithSubject` | Log_Sistemi.py:63-66 | the security warning ends with the full stripped line that raised it, and the confirmation ends with the user |
| `Timestamp.Clock.Valid` | Log_Sistemi.py:54 | definition of the range of a `datetime.now()` reading (years 1 to 9999, Gregorian month lengths, 24-hour time); `Instant` is the type of valid readings |
| `Timestamp.Pad` | Log_Sistemi.py:55-56 | a strftime field of width w is exactly w decimal digits |
| `Timestamp.PadValue` | Log_Sistemi.py:55-56 | a zero-padded field wide enough for its number reads back as that number |
| `Timestamp.FormatDate` | Log_Sistemi.py:55 | `%d.%m.%Y` has length 10, `.` at positions 2 and 5, and digits everywhere else |
| `Timestamp.FormatTime` | Log_Sistemi.py:56 | `%H:%M:%S` has length 8, `:` at positions 2 and 5, and digits everywhere else |
| `Timestamp.DateRoundTrip` | Log_Sistemi.py:55 | the date's two-, two- and four-digit fields read back as the reading's day, month and year |
| `Timestamp.TimeRoundTrip` | Log_Sistemi.py:56 | the time's three two-digit fields read back as the reading's hour, minute and second |
| `Timestamp.FormatInjective` | Log_Sistemi.py:54-56 | two readings with the same date and time strings are the same reading |
| `LogStore.Header` | Log_Sistemi.py:33 | definition: the header row `Tarih, Saat, Kullanici, Kart_ID`; used by InitializedIdempotent and SessionFromAbsent |
| `LogStore.Initialized` | Log_Sistemi.py:30-33 | definition of the one-time file preparation; characterised by InitializedIdempotent and used as CsvLog.EnsureHeader's contract |
| `LogStore.Appended` | Log_Sistemi.py:59-61 | definition of one append in mode `'a'`; characterised by AppendedExtends and used as CsvLog.Append's contract |
| `LogStore.InitializedIdempotent` | Log_Sistemi.py:30-33 | preparing the file twice is preparing it once; an absent file becomes exactly the header row; an existing file's rows are untouched |
| `LogStore.AppendedExtends` | Log_Sistemi.py:59-61 | an append keeps every earlier row in place and adds exactly the given row at the end |
| `LogStore.CsvLog.constructor` | Log_Sistemi.py:30 | the log object starts from the file's state on disk, present or absent |
| `LogStore.CsvLog.EnsureHeader` | Log_Sistemi.py:30-33 | the header is written only to an absent file; an existing file keeps its contents |
| `LogStore.CsvLog.Append` | Log_Sistemi.py:59-61 | the file afterwards exists and holds its old rows followed by the new row |
| `Ingest.Record` | Log_Sistemi.py:51-61 | a stored row has four fields: the formatted date, the formatted time, the user, the card |
| `Ingest.Step` | Log_Sistemi.py:46-66 | definition of one loop iteration's effect on the file; characterised by LogLineAppends, ShortLogLineDropped, AlarmLineWarns and OtherLineInert |
| `Ingest.Replay` | Log_Sistemi.py:36-66 | definition of the loop's effect on the file, one Step per event in arrival order; what Run is proved against; characterised by ReplayRows, ReplayCount, ReplayInert and ReplayExists |
| `Ingest.Console` | Log_Sistemi.py:63-66 | definition of the loop's console output, in arrival order; what Run is proved against; ConsoleConfirmsEachRow counts its confirmations |
| `Ingest.Events` | Log_Sistemi.py:36-65 | plumbing helper, no property of its own: the events the incoming lines classify to, one per line, in order |
| `Ingest.NoticesFor` | Log_Sistemi.py:63-66 | definition of one iteration's console output: a confirmation for a LOG event, a warning for an alarm, nothing otherwise; characterised by LogLineAppends, ShortLogLineDropped, AlarmLineWarns and OtherLineInert |
| `Ingest.Run` | Log_Sistemi.py:36-66 | after the loop over the lines, the file is the event-by-event replay of the old file over the events the lines classify to, and the console holds the notices of every line, in order |
| `Ingest.Session` | Log_Sistemi.py:30-66 | the script prepares the header once and then runs the loop from the prepared file |
| `Ingest.LogLineAppends` | Log_Sistemi.py:46-63 | a stripped line `LOG…,user,card[,…]` appends exactly the row `[date, time, user, card]` and prints one confirmation naming the user |
| `Ingest.ShortLogLineDropped` | Log_Sistemi.py:46-50 | a LOG line with fewer than two commas leaves the file unchanged and prints nothing |
| `Ingest.AlarmLineWarns` | Log_Sistemi.py:65-66 | an ALARM line leaves the file unchanged and prints one warning holding the full stripped line |
| `Ingest.OtherLineInert` | Log_Sistemi.py:40-65 | an undecodable line, or one with neither tag, leaves the file unchanged and prints nothing |
| `Ingest.ReplayRows` | Log_Sistemi.py:36-61 | a run only appends: the file keeps every earlier row in place, followed by exactly the rows of the accepted LOG lines in arrival order |
| `Ingest.NewRowsCount` | Log_Sistemi.py:50-61 | the rows a run adds are one per accepted LOG line |
| `Ingest.ReplayCount` | Log_Sistemi.py:36-61 | the final row count is the initial count plus the number of accepted LOG lines, and the old rows form a prefix |
| `Ingest.ReplayInert` | Log_Sistemi.py:36-66 | a run with no accepted LOG line leaves the file exactly as it was, an absent file included |
| `Ingest.ReplayExists` | Log_Sistemi.py:59-61 | a run never removes an existing file |
| `Ingest.NewRowsWellFormed` | Log_Sistemi.py:47-61 | every added row has four fields, a 10-character date, an 8-character time, and a user and card without commas |
| `Ingest.RecordRoundTrip` | Log_Sistemi.py:47-61 | a stored row, written out with commas between its fields, splits back into the same four fields, so user and card read back exactly |
| `Ingest.SessionFromAbsent` | Log_Sistemi.py:30-61 | started on an absent file, the script leaves the header followed by the new rows; N accepted lines give N + 1 rows |
| `Ingest.ConsoleConfirmsEachRow` | Log_Sistemi.py:59-63 | the console holds exactly one confirmation per accepted LOG line |
| `Ingest.ExampleLineEnding` | Log_Sistemi.py:41 | the device's CR LF line ending is removed by stripping |
| `Ingest.ExampleAccess` | Log_Sistemi.py:46-61 | `LOG,Alice,AA BB CC DD` read at 2024-05-01 10:15:30 appends `01.05.2024,10:15:30,Alice,AA BB CC DD` after the header |
| `Ingest.ExampleDate` | Log_Sistemi.py:55 | 2024-05-01 prints as `01.05.2024` |
| `Ingest.ExampleTime` | Log_Sistemi.py:56 | any reading at 10:15:30 prints as `10:15:30` |
| `Ingest.ExampleAlarm` | Log_Sistemi.py:65-66 | `ALARM,Door forced` changes no file and prints a warning with the whole line |
| `Ingest.ExampleShortLog` | Log_Sistemi.py:46-50 | `LOG,onlyone` is dropped silently |
| `Ingest.ExampleSkipUndecodable` | Log_Sistemi.py:40-61 | after an undecodable line the next accepted line is still recorded, with its own clock reading |

## Left out

- Opening the serial port, the two-second settle delay, `in_waiting` polling and
  `readline` (`Log_Sistemi.py:17-26`, `39`, `41`) are serial I/O. The incoming data
  is the sequence of lines they deliver, including a partial line a read timeout
  may cut. A failed connection prints a message and exits before the model starts.
- The UTF-8 decoding itself (`Log_Sistemi.py:41-43`) is a library call. Only its
  outcome is modelled: a decoded string, or `None` for a `UnicodeDecodeError`.
- `datetime.now()` (`Log_Sistemi.py:54`) is a clock. Its readings are parameters,
  one per incoming line.
- `Timestamp.FormatDate`: the year is printed with four zero-padded digits. For
  years below 1000, some C libraries print `%Y` without padding; that
  platform-dependent difference is not modelled.
- Python's `csv.writer` quoting and escaping (`Log_Sistemi.py:32-33`, `60-61`) is
  not modelled. A row is a sequence of fields, not the bytes written.
  `Ingest.RecordRoundTrip` therefore describes comma-joined fields, not CSV with
  quotes.
- Console output is modelled only as the sequence of notices and their wording
  (`Router.Render`). Connection and shutdown messages are not modelled.
- `KeyboardInterrupt`, the generic `except Exception` path, `ser.close()`, `break`
  and `exit()` (`Log_Sistemi.py:68-74`, `26`) are process control. File-system
  failures that would raise inside the loop are not modelled either; every file
  operation succeeds in the model.
- `os.path.exists` and real file opening are replaced by the `Option<seq<Row>>`
  file state. No other process changes the file during a run.
- The unbounded `while True` loop is modelled over finite input. The properties
  hold for every finite prefix of an infinite run.
