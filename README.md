# Telemetry line parser and record log

This project models the telemetry reader of the MPPT converter repository
(`uart.py`). The reader takes lines from the converter's serial port. Each
line is a run of tab-separated fragments. The firmware prints fragments such
as `LowSideVoltage: 12100` and `DutyCycle: 512`, in whole millivolts,
milliamps and duty-cycle counts (`Atverter Code/src/AtverterH_MPPT.cpp`,
lines 221-247). The reader also accepts two alternate formats: `key = value`
in place of `key: value`, and the key `Duty Cycle` for `DutyCycle`. It turns
a line into a dictionary of fields and keeps a timestamp plus five required
fields. It appends that record to an in-memory log only when all five
fields are present.

The two firmware builds differ here. `AtverterH_MPPT.cpp` prints all five
required fields on one line. `MPPT_wider_ranges_AVG_no_PID.cpp` ends the
line after `HighSideCurrent` (line 236) and prints `DutyCycle:` only in its
debug build, after that line break. With that build no line carries all
five fields, so the reader logs nothing (`Telemetry.CompleteIffAllPresent`).

The model has three modules:

- `Wrappers` (`wrappers.dfy`): the `Option` type.
- `Text` (`text.dfy`): the Python string operations the reader uses.
  These are `strip()`, `split('\t')`, `replace('=', ':')` and
  `split(':', 1)`, each over `seq<char>`.
- `Telemetry` (`telemetry.dfy`): the parser, the filter and the log.
  - `ParseFragment` handles one fragment. It is a pure function.
  - `ParseLine` is the `for part in parts` loop that fills the dictionary.
  - `Filter` is the loop that copies the required fields.
  - `TelemetryLog` is a class holding `data_log` as a sequence of records.
    Its method `Step` is one pass of the `while True` loop, and `Run` is a
    finite run of passes.

The timestamp comes in as a parameter, and so does the decoded line.
`Parse`, `FilteredEntry`, `NextLog` and `Replay` are the functions the
methods are proved against.

## Model

| member | source | states |
|---|---|---|
| `Text.Strip` | uart.py:32-33 | The result has no whitespace at either end. It is the part of the input that follows the leading whitespace, and only whitespace follows it. |
| `Text.StripUnique` | uart.py:32-33 | Any stripped middle part of a string with only whitespace around it is exactly what `strip()` returns. |
| `Text.StripIdempotent` | uart.py:32-33 | Stripping a stripped string changes nothing. |
| `Text.StripKeepsOut` | uart.py:31-32 | Stripping introduces no character. A key cut before the first `:` therefore still contains no `:` after stripping. |
| `Text.Split` | uart.py:25 | Splitting on the tab gives at least one part. No part contains a tab, and joining the parts with tabs gives the line back. |
| `Text.SplitJoin` | uart.py:25 | Splitting tab-joined tab-free parts gives exactly those parts back. |
| `Text.Replace` | uart.py:30 | The result has the same length. Every `=` becomes `:` and every other character is unchanged, so no `=` is left. |
| `Text.SplitFirst` | uart.py:31 | The text equals the part before, then `:`, then the part after. The part before contains no `:`. |
| `Text.SplitFirstUnique` | uart.py:31 | The split happens at the first `:`. Any decomposition around a `:` with no `:` before it is the one returned. |
| `Telemetry.CanonicalKey` | uart.py:34-35 | The result is never `Duty Cycle`. Any other key is returned unchanged. |
| `Telemetry.ParseFragment` | uart.py:29-35 | A fragment yields no field exactly when it has neither `:` nor `=`. Any field it yields is stripped on both sides, its key contains neither `:` nor `=`, and its key is never `Duty Cycle`. |
| `Telemetry.FragmentSplitsAtFirstSeparator` | uart.py:30-33 | The key is the stripped text before the fragment's first `:` or `=`, after renaming. The value is the stripped rest with `=` turned into `:`, so it keeps any later `:`. |
| `Telemetry.DutyCycleRenamed` | uart.py:34-35 | A fragment keyed `Duty Cycle` is stored under `DutyCycle` with the same value. |
| `Telemetry.Store` | uart.py:36 | No ensures. It is `parsed[key] = value`, so a later key overwrites an earlier one. `Telemetry.LastDefinitionWins` states the effect. |
| `Telemetry.Collect` | uart.py:26-36 | No ensures. It fills the dictionary from the parsed fragments in order. `Telemetry.CollectKeys`, `Telemetry.LastDefinitionWins` and `Telemetry.CollectWellFormed` state its contents. |
| `Telemetry.CollectWellFormed` | uart.py:32-36 | When every fragment yields a well-formed field, every entry of the dictionary built from them is well formed. |
| `Telemetry.Parse` | uart.py:25-36 | In the dictionary built from a line, every key and value is stripped and no key contains `:` or `=`. The key `Duty Cycle` never occurs. |
| `Telemetry.ParseLine` | uart.py:25-36 | The loop over the tab-separated fragments builds exactly the dictionary `Parse` describes. |
| `Telemetry.CollectKeys` | uart.py:28-36 | For any sequence of parsed fragments, a key is in the dictionary built from them if and only if some fragment names it. `Parse` applies this to the fragments of a line. |
| `Telemetry.LastDefinitionWins` | uart.py:28-36 | For any sequence of parsed fragments, when several fragments name the same key, the dictionary holds the value of the last of them. |
| `Telemetry.ParseLastDefinitionWins` | uart.py:25-36 | For a whole line, when several tab-separated fragments yield the same key, `Parse(line)` holds the value of the last of them. |
| `Telemetry.FilteredEntry` | uart.py:40-47 | No ensures. It is the timestamped record of the required fields. `Telemetry.FilteredEntryFields` states its keys and values. |
| `Telemetry.FilteredEntryFields` | uart.py:40-47 | The record's keys are exactly `timestamp` plus the required fields present in the dictionary. The timestamp value is the one passed in, and field values are copied unchanged. |
| `Telemetry.Filter` | uart.py:40-47 | The copying loop produces exactly the filtered record. |
| `Telemetry.Complete` | uart.py:49 | No ensures. It is `all(k in entry for k in required_fields)`. `Telemetry.CompleteIffAllPresent` relates it to the dictionary. |
| `Telemetry.CompleteIffAllPresent` | uart.py:44-49 | The filtered record has all five required fields if and only if the dictionary has them all. The timestamp never stands in for a required field. |
| `Telemetry.NextLog` | uart.py:21-50 | No ensures. It is the log after one pass of the reader loop. `Telemetry.NextLogAppendsIffComplete` and `Telemetry.NextLogKeepsShape` state its behaviour. |
| `Telemetry.NextLogAppendsIffComplete` | uart.py:21-50 | When the stripped line is non-empty and has all five fields, the log gains exactly its filtered record at the end and earlier records stay as they were. Otherwise the log is unchanged, and that includes an empty line. |
| `Telemetry.FilteredIsLogRecord` | uart.py:40-50 | A complete filtered record has exactly the keys `timestamp` plus the five required fields, and each field value is stripped. |
| `Telemetry.NextLogKeepsShape` | uart.py:49-50 | If every record in the log has the logged shape, every record still does after one more line. |
| `Telemetry.Replay` | uart.py:19-50 | No ensures. It is the log after a finite run of passes of the `while True` loop. `Telemetry.ReplayAppendsOnly` states its behaviour. |
| `Telemetry.ReplayAppendsOnly` | uart.py:19-50 | Over any run of lines, the log keeps its earlier records as a prefix and gains at most one record per line. Every record has the logged shape. |
| `Telemetry.TelemetryLog.constructor` | uart.py:13 | The log starts empty. |
| `Telemetry.TelemetryLog.Step` | uart.py:21-50 | One pass turns the log into `NextLog` of the old log and keeps the shape invariant. It reports an append exactly when the line is accepted, and the log then grows by exactly one record. |
| `Telemetry.TelemetryLog.Run` | uart.py:19-50 | Running the reader loop over a run of lines leaves the log equal to `Replay` of those lines. The shape invariant holds throughout. |

## Left out

- Serial port setup, `readline()`, UTF-8 decoding with `errors='ignore'` and `close()` (uart.py:6-10, 21, 62). These are device I/O. The decoded line is the input string.
- Clearing and rewriting `data.json` with `json.dump` (uart.py:12-17, 52-54). These are file I/O through a foreign serialiser.
- `datetime.now().isoformat()` (uart.py:41). This reads the wall clock, so the timestamp is an opaque string parameter.
- The `print` debug output and the `KeyboardInterrupt` handling (uart.py:22, 38, 53, 56, 58-59). These are side-effect-only logging and process control.
- Python's Unicode database is not modelled. Whitespace (`Text.IsSpace`) is written out as the 29 characters for which CPython 3.12's `str.isspace()` holds. A Python built on a different Unicode version could differ.
- The insertion order of Python dictionaries is not modelled. Records are Dafny maps, and that order only affects the JSON file.
- `Telemetry.TelemetryLog.Run`: the source loop never ends. `Run` covers any finite prefix of it.
- The converter firmware (`Atverter Code/src/*.cpp`: averaging, PI regulation, incremental conductance and the safety interlock) is not part of this model.
