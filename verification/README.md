# GTT time-tracking export, modelled in Dafny

GTT is a command-line tool for GitLab time tracking. It fetches a project's
issues once, caches the raw JSON in `data/gitlab_response.json`, and exports
one flat CSV row per cached issue. This project models the export path of its
`Application` class (`src/application.py`):

- the format allow-list (`allowed_formats == ['csv']`) and `set_format`;
- the guard at the top of `show`, which refuses an unsupported format before
  it touches the cache;
- the cache check in `show`. When the cache file is missing, `show` calls
  `sync`, but `sync` has no `return` statement. So `not self.sync()` always
  holds, the failure message is printed, and nothing is exported;
- the loop of `show`, which turns every cached issue into one row. The row
  holds the issue id, the title, two compact duration strings such as
  `"2h15m"`, GitLab's own human-readable durations, and the assignee's name
  or `None`.

Modules:

- `Wrappers` (`wrappers.dfy`): `Option`, which stands for Python's `None`
  next to a present value.
- `Durations` (`durations.dfy`): the pure part. It splits seconds into whole
  hours (`// 3600`) and minutes within the hour (`// 60 % 60`) and renders
  them as decimal segments. A parser `ParseDuration` reads a rendering back;
  it is the partner that the round-trip lemmas are stated against. The spent
  rendering is modelled as written: its hour part is the estimate's minute
  part divided by 60, so it is always 0.
- `App` (`application.dfy`): the `Issue` and `Row` records and the
  per-issue projection `ProjectIssue`. `ProjectRows` is the imperative loop
  that appends one row per issue; `BuildShown` builds a duration string with
  the same `=`/`+=` steps as the source. The `Application` class holds the
  `format` field written by `SetFormat` and the export method `Show`.

The cache file is a parameter of `Show`: `None` when the file does not exist,
`Some(issues)` with its decoded contents when it does. `Show` returns what
`show` ends with: the unsupported-format message with the list of supported
formats, the sync-failure message, or the rows handed to the CSV writer.

Durations are non-negative (`nat`). For non-negative operands, Python's floor
division and modulo agree with Dafny's `/` and `%`.

Two details of the code that the model keeps:

- The spent hour part is derived from the estimate's minutes
  (src/application.py:112), so it is always 0. The model keeps that; see
  Findings.
- Each row carries the compact `estimate` and `spent` strings
  (src/application.py:123-124) next to GitLab's own human-readable
  durations, which may be `null` and are copied unchanged.

## Model

| member | source | states |
|---|---|---|
| `Durations.DecimalString` | src/application.py:106 | Python's `f'{n}'` for a non-negative integer: a non-empty string of decimal digits whose first digit is '0' exactly when n is 0 (no leading zeros), and exactly "0" for 0 |
| `Durations.DecimalRoundTrip` | src/application.py:106 | reading back the rendered numeral of n gives n |
| `Durations.HoursOf` | src/application.py:102 | the hour part `seconds // 3600` is the largest h with h × 3600 ≤ seconds |
| `Durations.MinutesOf` | src/application.py:101 | the minute part `seconds // 60 % 60` is always in 0..59 |
| `Durations.HoursFromWholeMinutes` | src/application.py:101-102 | the hour part `seconds // 3600` equals the whole minutes divided by 60, so hours and minutes are the quotient and remainder of the whole minutes |
| `Durations.SplitDecomposes` | src/application.py:101-102 | hours × 3600 + minutes × 60 + leftover seconds is the original duration |
| `Durations.MinutesSkipHours` | src/application.py:111 | adding any number of whole hours leaves the minute part unchanged |
| `Durations.Segments` | src/application.py:103-108 | the assign-then-append string of an hour and a minute part is empty exactly when both parts are 0; its full characterisation is `ParseSegments` |
| `Durations.ParseSegments` | src/application.py:103-108 | from the segment string of any hour and minute part, the parser recovers exactly that hour and minute part |
| `Durations.RenderDurationRoundTrip` | src/application.py:101-108 | the estimate rendering determines the estimate's hours and minutes: parsing it gives (seconds // 3600, seconds // 60 % 60) |
| `Durations.RenderDuration` | src/application.py:101-108 | the estimate rendering (`time_estimate_show`) is the empty string exactly when the estimate is under 60 seconds; its round trip and segments are `RenderDurationRoundTrip` and `RenderDurationSegments` |
| `Durations.RenderDurationSegments` | src/application.py:103-108 | an 'h' appears exactly when the estimate is at least 3600 s; an 'm' appears exactly when the minute part is positive; with both, the string is hours, "h", minutes, "m" with no separator |
| `Durations.RenderDurationInjective` | src/application.py:101-108 | two estimates render alike exactly when they have the same number of whole minutes, so seconds below a minute never show |
| `Durations.RenderSpent` | src/application.py:111-118 | the spent rendering as written (`time_spent_show`) is empty exactly when the spent minutes within the hour are 0; its closed form is `RenderSpentMinutesOnly` |
| `Durations.RenderSpentMinutesOnly` | src/application.py:111-118 | the spent hour part is always 0, so the spent rendering is "" or "{m}m" with m the spent minutes within the hour, whatever the estimate, and it never holds an 'h' |
| `Durations.RenderSpentDeterminedByMinutes` | src/application.py:111-118 | two spent renderings are equal exactly when the spent minutes within the hour are equal; the estimate plays no part |
| `Durations.RenderSpentIgnoresWholeHours` | src/application.py:111-118 | spent durations that differ by a multiple of 3600 s render identically |
| `Durations.RenderSpentLosesHours` | src/application.py:112 | the spent rendering as written equals the rendering of the same seconds as an estimate exactly when less than 3600 s was spent: from one hour on, it differs |
| `Durations.RenderSpentCorrected` | src/application.py:111-118 | the spent rendering as evidently intended: parsing it gives the spent hours and minutes, and it holds an 'h' exactly from 3600 s on |
| `App.BuildShown` | src/application.py:103-108 | building the string with the source's assign-then-append steps yields the hour segment (if hours > 0) followed by the minute segment (if minutes > 0) |
| `App.ProjectIssue` | src/application.py:120-128 | a row copies the issue id, the title and the two human-readable durations unchanged; its user is present exactly when the issue has an assignee, and is then the assignee's name |
| `App.ProjectIssueDurations` | src/application.py:120-124 | a row's estimate string parses back to the issue's estimated hours and minutes; its spent string parses back to zero hours and the spent minutes within the hour |
| `App.ProjectRows` | src/application.py:96-128 | the loop yields exactly one row per issue, in input order, and row k is the projection of issue k |
| `App.Application.constructor` | src/application.py:9-12 | a new application is not in debug mode, has no format set, and allows exactly the format "csv" |
| `App.Application.SetFormat` | src/application.py:18-20 | stores the given format whether or not it is supported, and returns true exactly when it is in the allowed formats |
| `App.Application.Show` | src/application.py:74-128 | an unsupported format yields the unsupported message with the supported formats, whatever the cache holds; with a supported format, a missing cache always ends in the sync-failure message; otherwise the export holds one projected row per cached issue, in order |
| `App.Application.ShowWithResync` | src/application.py:83-86 | the export as evidently intended: with a supported format and a missing cache, a successful sync's issues are exported one row each, and only a failed sync ends in the failure message |

## Findings

| source | as written | input that shows it | evidently intended | confidence | as-written member | corrected member |
|---|---|---|---|---|---|---|
| src/application.py:112 | `time_spent_hour = time_estimate_min // 60`, where `time_estimate_min` is at most 59, so the hour part is always 0 | `total_time_spent = 7200`: spent shows as `""` where the estimate rendering of 7200 s is `"2h"` | `time_spent_hour = total_time_spent // 3600`, the same rendering as the estimate | high; not executed | `Durations.RenderSpentLosesHours` | `Durations.RenderSpentCorrected` |
| src/application.py:43-86 | `sync` has no `return`, so it returns `None` and `if not self.sync()` is always taken | no `data/gitlab_response.json`: `sync` writes the cache, then "Failed to synchronise with remote" is printed and nothing is exported | go on to read the freshly written cache and export it; stop only if the sync failed | high; not executed | `App.Application.Show` | `App.Application.ShowWithResync` |

`App.ProjectRows` and `App.Application.Show` keep the as-written behaviour,
because they model the source. The corrected members sit beside them with
their intended properties proved. `RenderSpentCorrected` is the estimate's
own rendering, `RenderDuration`, applied to the spent seconds.

## Left out

- `sync` (src/application.py:43-72): one HTTP GET through `requests` and one full overwrite of the JSON cache. This is network and file I/O. The model keeps only its return value (always `None`) and treats its effect as the `fetched` parameter of `ShowWithResync`. An HTTP error raised inside `sync` propagates out of `show` as an exception; the model does not represent it.
- `init` and `load_env` (src/application.py:14-41): reading a `.env` file into the environment. The `env_file` path set by the constructor is left out with them.
- Reading the JSON cache, `makedirs`, and the pandas DataFrame/CSV write (src/application.py:83-94, 130-131): file I/O and a foreign library. The cache is a parameter, and the CSV contents are the returned rows.
- Printed messages (src/application.py:76-79, 85, 89) are represented only by which outcome `Show` returns, not as text.
- A human-readable duration is copied as `null` or a string; its contents are never inspected.
- Malformed cache documents (a missing key raising `KeyError`, negative or non-integer seconds) are not modelled. Issues are well-formed records with non-negative durations.
- An assignee that is present but falsy (an empty JSON object) is not distinguished from a missing assignee. The model has only "no assignee" and "an assignee with a name".
- The milestone of an issue is not read by `show` and is not part of the `Issue` record.
- gtt.py: argparse dispatch with no logic of its own. Its `--format` choices (`table`, `json`) never intersect the allowed formats (`csv`), so every `--format` run ends in the unsupported-format message. This is CLI wiring and not modelled.
- main.py: a top-level script that repeats the fetch-and-export path. Its row projection is a plain field copy, already covered by the `show` projection.
- The per-user time-estimate deviation report: gtt.py:54 calls `show_time_estimate_deviation`, but `Application` does not define it, so there is no source to model it from.
