# curseforge-downloader: a Dafny model of its formatting helpers and completion loop

curseforge-downloader reads a modpack manifest, resolves each listed mod
file to a download URL through the CurseForge API, downloads all files
concurrently into an output directory (default `./mods`), and reports
progress on the console. The program is a single Go file, `main.go`. This
project models the parts of it that compute something exactly:

- the elapsed-time stamp `[HH:MM:SS]` written in front of every log line
  (`twoDigit`, `timeFmt`, and `strconv.Itoa` beneath them), in modules
  `Decimal`, `Clock` and `ClockExamples`;
- the 50-cell progress bar `percentString`, in module `ProgressBar`,
  as a method with a loop, proved equal to a reference shape `Bar`;
- `capitalizeFirst`, used on error messages before they are logged, in
  module `Text`. A string is its sequence of runes, and `unicode.ToUpper`
  is a parameter `upper: char -> char`;
- the file name and path that `downloadFile` derives from a download URL
  (`strings.Split` on `/`, last element, `outPath + "/" + name`), in modules
  `UrlPath` and `UrlPathExamples` (character counting, shared with the
  progress bar, is in module `Counting`);
- the loop at the end of `main` that counts completion signals from the
  download tasks, in module `Completion`. Each `<-endCh` receive is one
  step of the loop. The number of signals the tasks will ever send is a
  parameter. The trace records how the loop ended, how many signals it
  received, and the numbers it passed to `printPercentage`.

Choices made in the model:

- `timeFmt` divides and floors in `float64`. With a positive divisor this
  is floor division, which is what Dafny's `/` computes, so the model uses
  exact integers. It keeps the seconds formula as written
  (`s - minutes*60 - hours*60`).
- `percentString` halves its argument with Go's `/`, which truncates
  toward zero. `GoHalf` writes this out, because it differs from Dafny's
  `/` for negative values.
- Three behaviours of the code are kept as they are:
  - `percentString` fills cell `i` when `n / 2 >= i`. So any `n >= 0`
    fills `min(n / 2 + 1, 50)` cells, and at `n = 0` the bar already
    shows one `#`, since cell 0 is filled when `n / 2 >= 0`.
  - `timeFmt(3661)` is `[01:01:3541]`, not the `[01:01:01]` that the
    `[HH:MM:SS]` layout calls for (see Findings).
  - The completion loop leaves after one receive fewer than there are
    tasks, so it does not wait for every download (see Findings).

## Model

| member | source | states |
|---|---|---|
| Decimal.Itoa | main.go:67-69 | strconv.Itoa: for x >= 0 the text is decimal digits that read back (Value) as x, with no leading zero except in "0"; for x < 0 it is '-' followed by such digits for -x |
| Clock.TwoDigit | main.go:65-70 | for 0..99: exactly two digits that read back as x, with a leading '0' exactly when x <= 9; from 100 on: all the digits of x, unpadded; below 0: "0" followed by '-' and the digits of -x, with no leading zero after the sign |
| Clock.FieldsAsWritten | main.go:73-75 | hours is the floor of s/3600 and minutes lies in 0..59, with hours*3600 + minutes*60 + s%60 == s; the seconds field comes out as s%60 + 3540*hours |
| Clock.FieldsCorrected | main.go:73-75 | with hours*3600 subtracted, all three fields are in range and hours*3600 + minutes*60 + seconds == s |
| Clock.TimeFmt | main.go:72-84 | timeFmt as written: the stamp is bracketed and at least ten characters long, and it has the ten-character `[HH:MM:SS]` width exactly when 0 <= s < 3600; TimeFmtUnderOneHour, TimeFmtFromOneHour and ClockExamples.TimeFmtAt3661 state its content |
| Clock.TimeFmtUnderOneHour | main.go:72-84 | for 0 <= s < 3600 the stamp reads back (ReadStamp) as s, with hours 0, minutes s/60 and seconds s%60 |
| Clock.TimeFmtFromOneHour | main.go:72-84 | for 3600 <= s < 360000 the stamp is at least 12 characters long and does not read back as a `[HH:MM:SS]` stamp; its seconds field is the digits of s%60 + 3540*(s/3600), with no leading zero |
| Clock.TimeFmtCorrectedRoundTrip | main.go:72-84 | with the corrected formula, for 0 <= s < 360000 the stamp reads back as s, with fields s/3600, (s/60)%60 and s%60 |
| Clock.AgreeUnderOneHour | main.go:72-84 | under an hour the formula as written and the corrected one give the same stamp |
| ClockExamples.TimeFmtZero | main.go:72-84 | timeFmt(0) is "[00:00:00]" |
| ClockExamples.TimeFmtAt3661 | main.go:72-84 | timeFmt(3661) is "[01:01:3541]", while the corrected formula gives "[01:01:01]" |
| ProgressBar.GoHalf | main.go:119 | Go's truncating n / 2: n == 2*h + r with a remainder r of size below 2 that takes the sign of n (0 or 1 for n >= 0, 0 or -1 for n < 0) |
| ProgressBar.Bar | main.go:118-130 | the reference bar: 52 characters, '[' first and ']' last, and inner cell i is '#' exactly when i < Filled(n) |
| ProgressBar.PercentString | main.go:118-130 | the loop that appends '#' when n/2 >= i and '-' otherwise, for i in 0..49, between brackets, builds exactly Bar(n) |
| ProgressBar.BarShape | main.go:120-128 | every bar is 52 characters, starts with '[', ends with ']', and each inner cell is '#' or '-' |
| ProgressBar.BarHashCount | main.go:119-127 | the bar holds exactly Filled(n) '#' characters, and no '#' follows a '-' |
| ProgressBar.FilledNonNegative | main.go:119-127 | for n >= 0 the bar has min(n/2 + 1, 50) hashes: at least one (cell 0 is always '#'), and all fifty exactly when n >= 98 |
| ProgressBar.FilledMonotone | main.go:119-127 | a larger n never gives fewer filled cells or fewer '#' characters |
| ProgressBar.EmptyOnlyBelowMinusOne | main.go:119-122 | the bar is empty exactly when n <= -2 |
| Text.CapitalizeFirst | main.go:109-116 | the result has as many runes as the input; its first rune is upper of the input's first rune, and every later rune is unchanged |
| Text.CapitalizeEmpty | main.go:110-112 | the empty string comes back empty |
| Text.CapitalizeIdempotent | main.go:109-116 | capitalizing twice equals capitalizing once when upper is idempotent |
| Text.CapitalizeFixed | main.go:113-115 | a string whose first rune is already its own upper case comes back unchanged |
| UrlPath.Split | main.go:161 | strings.Split on one separator: one more part than separators, no part holds the separator, and Join of the parts gives back the input |
| UrlPath.SplitLastSegment | main.go:161-163 | the last part of the split is the suffix after the last separator, or the whole string when there is none |
| UrlPath.FileName | main.go:161-163 | the file name ends the URL, holds no '/', is preceded by '/' unless it is the whole URL, and is the whole URL when there is no '/' |
| UrlPath.FileNameAfterSlash | main.go:161-163 | for any prefix, the file name of prefix + "/" + name is name when name holds no '/' |
| UrlPath.FilePath | main.go:165 | the path is outPath, then '/', then exactly the file name, which holds no '/'; so the file lands directly inside outPath, and the file name is the path's last '/'-separated segment |
| UrlPath.FilePathRoundTrip | main.go:161-165 | the path starts with outPath + "/", and its own last segment is the file name again |
| UrlPath.TrailingSlash | main.go:161-165 | a URL that ends in '/' gives an empty file name, so the path is just outPath + "/" |
| UrlPathExamples.ExampleFileName | main.go:161-163 | "https://host/path/mod-1.2.3.jar" gives the file name "mod-1.2.3.jar" |
| Completion.CompletionLoop | main.go:297-308 | the loop as written ends as AsWritten says. With total >= 2 tasks and at least total - 1 signals, it exits after total - 1 receives and reports 1..total, the last report being total. Otherwise it blocks on a receive after taking every signal, reporting 1..signals |
| Completion.CompletionLoopCorrected | main.go:297-308 | a loop of one receive per task ends as Corrected says: it exits after exactly total receives, reporting 1..total, or blocks when fewer signals come |
| Completion.AsWrittenMissesLastSignal | main.go:297-308 | when every task signals, with total >= 2 the loop exits after total - 1 receives while reporting total done, so it does not wait for all tasks; with total == 1 it never exits |
| Completion.CorrectedWaitsForAll | main.go:297-308 | the corrected loop exits exactly when all total signals come, having received all of them, and then reports the same counts as the loop as written |

## Findings

| source | as written | input that shows it | evidently intended | confidence | as-written member | corrected member |
|---|---|---|---|---|---|---|
| main.go:75 | `seconds := s - minutes*60 - hours*60` subtracts 60 seconds per hour where an hour is 3600 | s = 3661 gives `[01:01:3541]` | `s - minutes*60 - hours*3600`, giving `[01:01:01]` | high; not executed | ClockExamples.TimeFmtAt3661 | Clock.TimeFmtCorrectedRoundTrip |
| main.go:304 | the loop leaves when `i == int(total)-1`, right after the (total-1)-th receive | total = 3 with all three tasks signalling: it leaves after 2 receives, reports 3 of 3, and main returns while the third download may still run; total = 1: the test `i == 0` is never true after the first receive, so main waits on a receive that never comes | leave after exactly total receives | high; not executed | Completion.AsWrittenMissesLastSignal | Completion.CompletionLoopCorrected |

## Left out

- HTTP resolution and download (`handleMod`, the network part of `downloadFile`): network I/O through a foreign HTTP client.
- `createFile` (open, remove, create): filesystem side effects.
- `fileJob`, the `go` statements and the `endCh` channel: concurrency. Only the receiving loop is modelled. The number of signals that will arrive is a parameter. The order and timing of signals are not modelled. This includes the classification in `fileJob` that ends the process on a status of 400 or more.
- `log`, `printPercentage` and the `logMu` lock: console output and a mutex. The loop records only the numbers it would pass to `printPercentage`.
- The `float64` percentage `(i / total) * 100` truncated by `int(...)` in `printPercentage`: floating point. The bar is modelled on its integer argument.
- Flag and environment parsing (`init`), manifest JSON decoding and the `validator` checks: library wrappers and I/O.
- `fatal` and `os.Exit`: process termination.
- The Unicode case tables behind `unicode.ToUpper`: an abstract parameter. The UTF-8 decoding in `[]rune(str)` is not modelled either, so strings are taken as rune sequences. Invalid bytes, which Go decodes to U+FFFD, are not modelled. Splitting on `/` works the same on bytes and on runes.
- Clock.FieldsAsWritten: the `float64` arithmetic is modelled as exact. Go's rounding of `float64(s)` and of the quotients, which matters only for elapsed times far beyond a human lifetime, is not modelled.
- Clock.TimeFmtCorrectedRoundTrip: stated for elapsed times below 100 hours. From 100 hours on, `twoDigit` writes the hours unpadded and in full, so the stamp is wider than ten characters.
- Clock.TimeFmtFromOneHour: stated for elapsed times from one hour to below 100 hours. Beyond that the hours field is wider as well.
