# Timelapse encoder: encoding pipeline model

This project models the encoding pipeline of the timelapse encoder, a small
desktop tool that waits for a screen-capture file to stop growing and then
speeds it up with FFmpeg. The model covers the core of `TimelapseApp` in
`app.py`:

- **Start gate** (`start_process`). An encoding job starts only when the mode
  is `"file"` and the input path names an existing file. Anything else is
  reported as an invalid path.
- **Size-stability poller** (`wait_until_stable`). The file size is read once
  per tick. A read equal to the previous size extends a run of identical
  reads. A different read restarts the run. A failed read changes nothing.
  The poller returns once five consecutive repeats have been seen, which
  means six equal successful reads in a row.
- **Speed selection** (the speed/target branch of `encode_video`). Either the
  typed multiplier is used as it is, or a target length `H:M:S` is parsed
  with Python's `str.split(":")` and `int()` and the video's length is
  divided by it. A zero target and any malformed field abort the job.
- **Duration probe** (`get_video_length`). FFmpeg's stderr is scanned for the
  leftmost `Duration: H:M:S.ff` header. Its value in seconds is returned,
  or 0 when no header matches.
- **Command assembly**. The fixed FFmpeg argument list is built: a
  `setpts=PTS/<speed>` filter, no audio, 30 fps, libx264 `veryfast` and the
  CRF. It is followed by a `-s WxH` pair unless the resolution is
  "Original", and then by the output path. A resolution that is not in the
  table falls back to 1920x1080.

Modules:

- `Wrappers` holds `Option` and `Result`.
- `Numerals` holds decimal digits and the rendering of integers, as in
  Python's `str(int)`.
- `Poller` holds the poller. Its pure specification is `After`, the poll
  state after a list of samples. The loop in `WaitUntilStable` is proved
  against it.
- `TargetDuration` holds `str.split(":")`, `int()` and the target-length
  parser.
- `DurationProbe` holds the regular-expression scan over FFmpeg's stderr.
- `EncoderCommand` holds resolution lookup and `BuildCommand`. It also holds
  `ReadCommand`, a reader that recovers every argument from a built command.
- `EncodeJob` holds the speed computation, `EncodeVideo` and `StartProcess`.

The form asks for a length as `hh:mm:ss`, but the code never checks the sign
of a field: `int()` accepts `-5`, and `"-1:120:0"` is accepted as a target of
3600 seconds. The model follows the code. A negative total gives a
negative speed. Only a total of exactly zero is rejected, and it is rejected
through the division by zero.

## Model

| member | source | states |
|---|---|---|
| `Poller.Step` | app.py:180-188 | A successful read is always remembered. The count grows by at most one per tick, and only when the read repeats the remembered size. |
| `Poller.After` | app.py:178-188 | Before any successful read the state is the initial one (size -1, count 0). After one, the remembered size is a real size and the count stays below the number of successful reads. |
| `Poller.WaitUntilStable` | app.py:177-189 | The loop returns after the first tick at which the stability count reaches 5 and never earlier. The state at every tick equals `After` of the samples read so far. If it never stops, every prefix of the samples leaves the count below 5. |
| `Poller.AfterMeaning` | app.py:178-188 | After any list of samples, the remembered size is the last successful read, or -1 when no read succeeded. The count is one less than the length of the trailing run of equal successful reads. |
| `Poller.TrailingRunMeaning` | app.py:180-185 | The trailing run has length at least k exactly when the last k successful sizes are all equal. |
| `Poller.StableIffLastSixEqual` | app.py:178-189 | The stopping condition `stable >= 5` holds exactly when there were at least six successful reads and the last six of them are equal. |
| `Poller.OnlySizesMatter` | app.py:180-188 | Failed reads are ignored. Two sample lists with the same successful sizes give the same poll state. |
| `Poller.RepeatedSize` | app.py:178-185 | Reading the same size k times in a row (k ≥ 1) leaves the count at k-1 and remembers that size. |
| `Poller.SixEqualReadsStop` | app.py:178-189 | Six equal reads reach the threshold and five do not. |
| `TargetDuration.Split` | app.py:209 | `split(":")` returns one more part than there are colons, and no part contains a colon. |
| `TargetDuration.JoinSplit` | app.py:209 | Joining the parts of a split with ':' gives back the original text. |
| `TargetDuration.SplitJoin` | app.py:209 | Splitting a ':'-join of colon-free parts gives back exactly those parts. |
| `TargetDuration.ParseSigned` | app.py:209 | `int()` without surrounding whitespace accepts only texts ending in a digit. A leading '-' gives a value that is not positive, and no sign or '+' gives one that is not negative. |
| `TargetDuration.ParseIntChars` | app.py:209 | A text `int()` accepts holds at least one digit and nothing but whitespace, digits, underscores and signs. |
| `TargetDuration.InformationSeparatorRejected` | app.py:209 | A field holding any of U+001C..U+001F is rejected, because `int()` does not strip those characters although `str.isspace` counts them as whitespace. |
| `TargetDuration.ParseIntShowInt` | app.py:209 | `int()` of the decimal rendering of any integer, with whitespace that `int()` strips around it, gives back that integer. |
| `TargetDuration.ParseIntDigits` | app.py:209 | `int()` of a non-empty run of ASCII digits is that run's decimal value, so leading zeros are accepted. |
| `TargetDuration.ParseTargetFields` | app.py:209-210 | For any three colon-free fields that `int()` accepts, the target is h*3600 + m*60 + s. |
| `TargetDuration.BadFieldRejected` | app.py:209-210 | If `int()` rejects any one of the three fields, the target length is rejected. |
| `TargetDuration.ParseTarget` | app.py:209-210 | An accepted target text contains exactly two colons, because unpacking into three names needs three parts. |
| `TargetDuration.ParseFields` | app.py:209-210 | The three names are bound only when the split gives exactly three parts and `int()` accepts each of them. |
| `TargetDuration.ParseTargetChars` | app.py:209-210 | An accepted target text holds only colons and characters `int()` can accept. |
| `TargetDuration.ParseTargetShow` | app.py:209-210 | Any three integers, possibly negative, written as `h:m:s` parse back to h*3600 + m*60 + s. |
| `DurationProbe.FirstMatch` | app.py:241 | The result is the leftmost position at or after i where the `Duration:` pattern matches, with that match's value. No earlier position matches. None means that no position matches. |
| `DurationProbe.MatchFront` | app.py:241-244 | A match at the front of a text has a value that is never negative. |
| `DurationProbe.MatchFrontIsHeader` | app.py:241-244 | The pattern matches at the front of a text only where a well-formed header `Duration: H:M:S.F` stands, followed by text that does not start with a digit, and the value is that header's H*3600 + M*60 + S + F/10^len(F). |
| `DurationProbe.ProbeSeconds` | app.py:241-247 | The probed length is never negative. |
| `DurationProbe.NoMatchWithoutD` | app.py:241 | The pattern cannot match at a position that does not hold a 'D'. |
| `DurationProbe.ProbeIsFirstMatch` | app.py:241-244 | If a header matches at some position, the probe returns the value of the leftmost match. |
| `DurationProbe.ProbeWithoutMatch` | app.py:241-247 | If the pattern matches nowhere, the probe returns 0. |
| `DurationProbe.MatchHeader` | app.py:241-244 | A well-formed header `Duration: H:M:S.F` followed by text that does not start with a digit reads as H*3600 + M*60 + S + F/10^len(F). |
| `DurationProbe.ProbeHeader` | app.py:241-244 | A header that follows text containing no 'D' is the one the probe reads. |
| `DurationProbe.NinetySecondHeader` | app.py:241-244 | `  Duration: 00:01:30.50` followed by any text that does not start with a digit (such as `, start: ...`) probes as 90.5 seconds. |
| `DurationProbe.NoDurationLine` | app.py:241-247 | Stderr without any 'D' probes as 0. |
| `EncoderCommand.SizeOverride` | app.py:225-227 | No size is passed exactly when the label lower-cases to "original". Any size that is passed is one of the four table sizes, 1920x1080 being also the fallback. |
| `EncoderCommand.Lower` | app.py:225 | `resolution.lower()` keeps the length and folds each character on its own: ASCII capitals and the Kelvin sign, the only ones that can reach a table key. |
| `EncoderCommand.OfferedLabels` | app.py:225-227 | Each of the labels 720p, 1080p, 1440p and 4K selects its table size. |
| `EncoderCommand.OriginalLabel` | app.py:225-226 | The label "Original" selects no size. |
| `EncoderCommand.UnknownLabel` | app.py:225-227 | A label not in the table, such as "8K", falls back to 1920x1080. |
| `EncoderCommand.KelvinSignLabel` | app.py:225-227 | "4" followed by the Kelvin sign selects 3840x2160, because Python lower-cases that sign to 'k'. |
| `EncoderCommand.LowerUpper` | app.py:225 | Lower-casing the ASCII upper-casing of a text equals lower-casing the text. |
| `EncoderCommand.OverrideIgnoresCase` | app.py:225-227 | The resolution choice does not depend on letter case. |
| `EncoderCommand.ReadCommandInjective` | app.py:218-228 | Two commands that read back as the same arguments are the same list. |
| `EncoderCommand.FlagsBeforeValues` | app.py:218-228 | In a readable command, every flag comes right before its value, `-crf` is at index 12, and the output path is last. |
| `EncoderCommand.BuildCommand` | app.py:218-228 | The built command reads back as exactly its inputs: the ffmpeg path, the input, the speed text, `str(crf)`, the size chosen by the resolution, and the output path. It has 17 elements with a size pair and 15 without. |
| `EncodeJob.ComputeSpeed` | app.py:199-216 | Multiplier mode succeeds exactly when the entry parses as a float, and then it uses that value. Target mode succeeds exactly when the target parses to a non-zero number of seconds, and then it gives video length / target. Every failure carries the matching abort reason. |
| `EncodeJob.Ratio` | app.py:212 | The speed times the target equals the video length. |
| `EncodeJob.MultiplierIgnoresProbe` | app.py:199-205 | In multiplier mode, the probed length has no effect on the speed. |
| `EncodeJob.TenMinutesToTenSeconds` | app.py:207-216 | A video whose header reads `Duration: 00:10:00.00`, followed by any text not starting with a digit, with target `00:00:10` is sped up 60 times. |
| `EncodeJob.EncodeVideo` | app.py:191-236 | The job keeps waiting exactly when the file never becomes stable. Otherwise it aborts exactly when the speed computation fails, with that reason. Otherwise it runs the command built from the settings, the input, the rendered speed and the output path, and reports the encoder's exit status. These outcomes are the predicate `JobOutcome`. |
| `EncodeJob.StartProcess` | app.py:171-175 | The job is refused as an invalid path exactly when the mode is not "file" or the input is not an existing file. Otherwise the outcome is the one `EncodeVideo` guarantees (`JobOutcome`) for the input it was started with. |
| `Numerals.ShowInt` | app.py:222 | `str(n)` is a non-empty text ending in a digit. It starts with '-' exactly when n is negative, and with a digit otherwise. |
| `Numerals.DigitsValueShowNat` | app.py:222 | The decimal rendering used for `str(crf)` reads back as the number. |

## Left out

- The Tk window, its widgets, tooltips, progress bar and log box are left out. Reading a Tk variable becomes a parameter of the model (`Settings`, `mode`, `input`).
- The worker thread is left out. `StartProcess` calls `EncodeVideo` directly, so concurrency with the UI is not modelled.
- `os.path.getsize` and `time.sleep` are replaced by a finite list of samples, one per tick. A size or a failed read stands for each call. A job whose samples run out before stabilising is reported as `StillWaiting`, which stands for polling forever.
- `os.path.isfile` is the boolean `inputIsFile`.
- The output file name built from `datetime.now()` and `os.path.join` is the opaque `outputPath`.
- Both `subprocess.run` calls are left out. The probe's stderr is the text `probeText`, and the encoder's exit status is the boolean `encoderSucceeded`. An exception other than `CalledProcessError` is not modelled.
- `EncodeJob.ComputeSpeed`: Python's `float()` is left out. The multiplier entry is given as its parse result, `Option<real>`. Infinities, NaN and -0.0 are not modelled.
- `EncodeJob.EncodeVideo`: the text of the speed in the filter, `f"{speed}"`, is an opaque function `render` supplied by the caller. The model states that the command carries `render(speed)` and does not model Python's float repr.
- `DurationProbe.ProbeSeconds`: the seconds are computed exactly as rationals. Python's float rounding of `S.ff` and of the sum is not modelled.
- `EncodeJob.Ratio`: the quotient is exact. Float rounding and the `OverflowError` that a huge target length raises (caught as an invalid target) are not modelled.
- `TargetDuration.ParseInt`: only ASCII digits are accepted. Python's `int()` also accepts other Unicode decimal digits, and `\d` in the probe's pattern also matches them. The whitespace `int()` strips is tab, line feed, vertical tab, form feed, carriage return and space below U+0080, and the Unicode whitespace characters above it. The separators U+001C..U+001F, which `str.isspace` counts, are not stripped.
- `TargetDuration.ParseInt`, `DurationProbe.ProbeSeconds`, `Numerals.ShowInt`: Python 3.11 and later refuse to convert between `int` and `str` for more than 4300 digits, and the model has no such limit. A target field that long makes `int()` raise and aborts the job at app.py:209. An hours or minutes group that long makes `get_video_length` return 0 (app.py:243-247). `str(crf)` at app.py:222 would raise for such a CRF.
- `EncoderCommand.Lower`: only ASCII letters and the Kelvin sign are folded. Other non-ASCII case mappings of `str.lower()` cannot turn a label into a table key, except Kelvin, which is modelled.
- The CRF is taken as an integer. The spinbox's 15-35 range is not enforced by the code and not by the model. A `TclError` from an empty or non-numeric CRF field is not modelled.
- A probe that finds no header makes the target mode compute a speed of 0. The code does not reject that speed, and neither does the model.
- `update_estimated_length`, the file and folder choosers and `toggle_method` are UI helpers outside the pipeline.
- Watch mode: the code imports watchdog and keeps an `observer` field, but `start_process` refuses every mode other than "file", and `StartProcess` models that refusal. No folder watching is implemented, so there is nothing more to model.
- The startup check for a missing FFmpeg binary (`app.py:45-49`) is left out, because it exits before any pipeline code runs.
