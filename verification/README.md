# GFS forecast download, modelled in Dafny

This project models the core of `src/download_gfs.py` from the OLGA model's
tooling. That script fetches the 0.25 degree GFS forecast files of one
forecast run from the NOMADS server into a local directory tree.

- **Batch download** (`download_gfs`). The script builds the run's remote
  directory `.../gfs.YYYYMMDDCC/` and its local directory
  `gfs_data/YYYY_MM_DD_cCC/`. It counts the forecast hours as
  `int((end - start) / dt + 1)` and creates one task per hour. A task holds
  the file name `gfs.tCCz.pgrb2.0p25.fFFF` and that name appended to each
  directory. Each task then runs in its own process.
- **File acquisition** (`download_gfs_file`). This is a `while success == False`
  loop. In each pass:
  - If a local copy exists, the server is probed. A non-200 status accepts
    the copy (the run has been retired). A compared size equal to the
    local length also accepts it (on Python 3 the compared size is only
    the header's first digit; see Findings).
  - Otherwise the server is probed again. A 200 leads to a download, a
    non-200 to a 300 s sleep.
  - Any exception leads to a 30 s sleep.

Files and modules:

| file | module | contents |
|---|---|---|
| optional.dfy | `Optional` | `Option`, used wherever the source raises instead of producing a value |
| decimal.dfy | `Decimal` | Python's `'{:0Nd}'` formatting (`ZeroPad`) and `int(s)` (`ParseInt`), with a round trip and width lemmas |
| naming.dfy | `Naming` | directory and file-name templates, the `Task` record, decoding and distinctness lemmas |
| batch.dfy | `Batch` | the hour count with true division and truncation, the hours, the task loop (`DownloadGfs`), the reference run |
| acquire.dfy | `Acquire` | the pass decision (`Step`), the pass as imperative code (`Pass`), the loop (`DownloadGfsFile`), its trace and scenarios |

How the environment is represented:

- **Observations.** One `Observation` per pass replaces the server, the
  file system and the clock. It holds:
  - the local file: missing, present with its length, or unreadable;
  - the outcome of the first `urlopen`: a status with the Content-Length
    values, or an exception;
  - the outcome of the second `urlopen`;
  - whether `urlretrieve` completes.
- **Sleeps.** They become actions. `WaitForRemote` sleeps `NotYetDelay`
  (300 s) and `WaitAfterFault` sleeps `FaultDelay` (30 s).
- **The loop's length.** The loop runs on a finite sequence of
  observations. It stops early only when a pass resolves. Running out of
  observations stands for the process being killed from outside.
- **The interpreter.** `SizeRule` selects the branch chosen by the
  `PYTHON3` flag (`RuleFor`):
  - `Python2List` is `getheaders(...)[0]`, the first header value;
  - `Python3FirstChar` is `getheader(...)[0]`, the first character of the
    header;
  - `Python3Whole` is the corrected reading described under Findings.

Where the source's comments and its code disagree, the model follows the
code:

- **Retired remote on Python 3.** The comments at `src/download_gfs.py:65`
  ("might have been removed") and `:84` ("probably old run") intend a
  local copy whose remote file is gone to be accepted. On Python 3,
  `urlopen` raises on a 404, so that pass goes to the 30 s wait and the
  loop never ends (`Acquire.RaisingProbesNeverResolve`). The model keeps
  "raised" separate from "a non-200 status".
- **Size comparison on Python 3.** The comment at `:66` says the remote and
  local sizes are checked for a match. On Python 3 the code compares only
  the first character of the header (see Findings).
- **Hour count.** The count is `int((end - start) / dt + 1)`. On Python 3
  the division is float division; on Python 2 it is floor division of
  ints, which gives the same count. For `step > 0` the count equals
  `(end - start) / step + 1` with floor division (`Batch.HourCountFloor`).
  A zero step raises `ZeroDivisionError`, and the model then produces no
  plan.

## Model

| member | source | states |
|---|---|---|
| `Decimal.ParseZeroPad` | src/download_gfs.py:123 | `int()` of a zero-padded field gives back the number, for every integer and width (negative numbers keep their sign in front) |
| `Decimal.ZeroPadWidth` | src/download_gfs.py:123 | for `n >= 0` the padded field is never narrower than its width, and it is exactly `w` wide iff `n < 10^w`; so hours 0..999 take exactly three digits |
| `Decimal.ZeroPadInjective` | src/download_gfs.py:107-110 | two integers with the same padded rendering are equal |
| `Decimal.ParseChar` | src/download_gfs.py:69-77 | `int()` of one character succeeds exactly on a digit, giving its value; anything else raises |
| `Naming.RemoteDirShape` | src/download_gfs.py:107-108 | the remote directory starts with the server's production root and ends in '/' |
| `Naming.LocalDirShape` | src/download_gfs.py:109-110 | the local directory starts with `gfs_data/` and ends in '/' |
| `Naming.RemoteDirIdentifiesRun` | src/download_gfs.py:107-108 | for year < 10000 and month, day, cycle < 100, two runs with the same remote directory are the same run |
| `Naming.LocalDirIdentifiesRun` | src/download_gfs.py:109-110 | within the same widths, two runs with the same local directory are the same run |
| `Naming.FileNameHour` | src/download_gfs.py:123 | a file name is the cycle's prefix followed by a field that decodes back to the hour; for hours 0..999 the field has 3 characters, and for cycles 0..99 the name has 24 |
| `Naming.FileNamesDistinct` | src/download_gfs.py:123 | different hours of one cycle give different file names |
| `Naming.FileNameHasNoSlash` | src/download_gfs.py:123 | a file name contains no '/' |
| `Naming.TaskPaths` | src/download_gfs.py:123-125 | the remote and local paths both end in the file name, and the local file lies directly inside the local directory |
| `Naming.TaskPathsDistinct` | src/download_gfs.py:124-125 | different hours give different local paths and different URLs |
| `Batch.TruncateBracket` | src/download_gfs.py:118 | `int()` of a float drops the fraction toward zero: `n <= x < n + 1` for `x >= 0`, `n - 1 < x <= n` otherwise |
| `Batch.HourCountFloor` | src/download_gfs.py:118 | for a positive step the count is `(end - start) / step + 1` (floor division) when `end >= start`, and 0 otherwise |
| `Batch.HoursUpToEnd` | src/download_gfs.py:118-121 | hour `start + k*step` is scheduled iff it does not pass the end hour (`<= end` for a positive step, `>= end` for a negative one) |
| `Batch.HoursInOrder` | src/download_gfs.py:120-121 | scheduled hours lie between start and end and move strictly in the direction of the step |
| `Batch.TasksDisjoint` | src/download_gfs.py:119-128 | every task stores its file directly in the run's local directory; distinct tasks have distinct local paths and URLs |
| `Batch.DownloadGfs` | src/download_gfs.py:103-129 | a zero step gives no plan (division by zero); otherwise the plan holds the two directories and, in order, the task of each hour `Tasks(run)` |
| `Batch.ReferenceRun` | src/download_gfs.py:137-138 | the run 2016-06-20 cycle 00, hours 0..24 by 3, has 9 tasks named `gfs.t00z.pgrb2.0p25.f` + 3-digit hour (f000 to f024), under `gfs_data/2016_06_20_c00/` and the server directory `gfs.2016062000/` |
| `Acquire.StepDecision` | src/download_gfs.py:59-100 | a pass resolves iff a local file exists and the first probe returns a non-200 status or a size equal to the local length; it downloads iff the file is missing or differs and the second probe returns 200 and the retrieval completes; it sleeps 300 s iff the second probe returns a non-200 status; every exception leads to the 30 s sleep |
| `Acquire.Pass` | src/download_gfs.py:59-100 | the branch-by-branch body of one pass takes the action `Step` decides and sets `success` exactly when that action resolves |
| `Acquire.TraceShape` | src/download_gfs.py:56-57 | the loop takes one action per pass, as `Step` decides; no pass but the last resolves, and it stops before the observations run out only on a resolution (no failure exit; an exception never ends it) |
| `Acquire.TraceUnique` | src/download_gfs.py:56-100 | conversely, any action sequence of that shape is the loop's trace |
| `Acquire.DownloadGfsFile` | src/download_gfs.py:53-100 | the loop's actions are `Trace(rule, obs)`; it reports success iff its last pass resolved; when it does not succeed it has used every observation |
| `Acquire.MatchingCopyResolves` | src/download_gfs.py:61-79 | a local copy whose length equals the compared size ends the loop in the first pass, without a download |
| `Acquire.RetiredRemoteResolves` | src/download_gfs.py:83-85 | a local copy whose probe returns a non-200 status without raising ends the loop in the first pass |
| `Acquire.DownloadThenResolve` | src/download_gfs.py:77-93 | a missing or differing file is downloaded exactly once; if the next pass finds equal sizes, the loop ends there |
| `Acquire.NotYetPublishedWaits` | src/download_gfs.py:88-96 | with no local file and non-200 answers, every pass sleeps 300 s and none resolves |
| `Acquire.RaisingProbesNeverResolve` | src/download_gfs.py:97-100 | when every probe raises, every pass sleeps 30 s and none resolves, even when a local copy exists |
| `Acquire.ComparedSizeOfLength` | src/download_gfs.py:67-77 | for a header that holds the decimal length `n`, the Python 2 reading and the whole-value reading give `n`; the Python 3 first-character reading gives `n` iff `n < 10` |
| `Acquire.FirstCharacterNeverMatches` | src/download_gfs.py:69 | on Python 3 as written (`RuleFor(true)`, the rule the `PYTHON3` flag selects), a local file of 10 bytes or more is never accepted while the server serves it: no pass resolves |
| `Acquire.FirstCharacterCounterexample` | src/download_gfs.py:69-77 | a 1234-byte copy with header "1234" is downloaded again on Python 3 as written, but accepted by the whole-value reading and by the Python 2 branch |
| `Acquire.FirstCharacterAcceptsTruncated` | src/download_gfs.py:69-79 | a truncated 1-byte copy of a file whose header says "1234" is accepted on Python 3 as written (`RuleFor(true)`), so the loop ends with an incomplete file; the whole-value reading and the Python 2 branch (`RuleFor(false)`) download it again |
| `Acquire.WholeHeaderMatchResolves` | src/download_gfs.py:72-79 | with the whole header value read, a copy whose length equals the announced Content-Length ends the loop in the first pass, at any size |

## Findings

| source | as written | input that shows it | evidently intended | confidence | as-written member | corrected member |
|---|---|---|---|---|---|---|
| src/download_gfs.py:69 | on Python 3, `remote.getheader("Content-Length")[0]` takes the first character of the header string, so only one digit is compared with the local length at :77 | a complete 1234-byte local file with `Content-Length: 1234`: 1 is compared with 1234, so the file is downloaded again in every pass and the loop never ends; conversely a truncated 1-byte copy of that file matches the digit 1 and is accepted as complete | compare the whole header value, as the Python 2 branch at :72 does: `int(remote.getheader("Content-Length"))` | high; not executed | `Acquire.FirstCharacterNeverMatches` (re-download), `Acquire.FirstCharacterAcceptsTruncated` (truncated copy accepted) | `Acquire.WholeHeaderMatchResolves` |

The corrected reading is `SizeRule.Python3Whole`. `Step`, `Trace`, `Pass`
and `DownloadGfsFile` all take the rule as a parameter. Every property
listed above that does not name a rule holds for the corrected reading.

## Left out

- Network calls (`urlopen`, `urlretrieve`) and reading the local file.
  These become the fields of an `Observation`. HTTP redirects, header
  parsing and the response body are not modelled.
- `multiprocessing.Process` start and join (:128-133). Only the ordered task
  list is modelled. The workers' parallel execution and the join are not.
- `time.sleep` (:96, :100). The sleeps become the actions `WaitForRemote`
  and `WaitAfterFault` with their durations as constants. No time passes.
- `get_time`, `printf` and the `DEBUG` flag (:36, :43-50). These are the
  clock and stdout.
- `execute` (:39-40). It is never called, and `subprocess` is never
  imported.
- `os.path.exists` / `os.mkdir` (:113-115). This is file-system I/O. The
  race between two batches creating the same directory is not modelled.
- The unused `numpy` import, and the `__main__` entry point, except as the
  reference run.
- Acquire.DownloadGfsFile: the source loop can run forever. The model runs
  it on a finite sequence of observations, so a run that never ends is
  represented only by its finite prefixes.
- Batch.HourCount: the count is computed with exact real division. The
  float rounding of `(end - start) / dt + 1` on Python 3 is not modelled.
  While `|end - start| + |step| < 2^52` the two rounding errors together
  stay below `1/|step|`, so the count is the same. Beyond that bound it can
  differ: `end - start = 2^53 - 1` with `step = 2^52` rounds to 3 in the
  source, while the model counts 2.
- Decimal.ParseInt: it accepts ASCII whitespace, a sign and ASCII digits.
  Python 3's `int()` also accepts underscores between digits, non-ASCII
  digits and non-ASCII whitespace. Headers holding those raise in the model.
- Acquire.JoinHeader: it joins repeated Content-Length headers with ", ", as
  `getheader` does. Header-name case folding and the parsing of header
  lines belong to the HTTP library and are not modelled.
