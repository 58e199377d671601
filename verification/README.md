# Watch: change detection and rebuild decisions, modelled in Dafny

Watch is a small Go tool that watches a directory tree and re-runs a command
whenever something in it changes. This project models its core, which lives in
`main.go`:

- **`isDir` and `modTime`** (`scanner.dfy`): the two questions asked about a path.
  `modTime` resolves a path that no longer exists to the modification time of its
  nearest existing ancestor.
- **`watch`, `watchDir` and the root dispatch of `startWatching`** (`watchset.dfy`):
  these build the watch set recursively, skipping excluded children.
- **one pass of `sendChanges`** (`translator.dfy`): this turns a notification event
  into a timestamp for the main loop. It extends the watch set when a directory is
  created.
- **the `select` loop of `main`** (`debounce.dfy`): this is the debounce timer and
  the decision to run the command.

The operating system is replaced by an immutable snapshot, `FileSystem.Fs`, a
map from paths to entries (`filesystem.dfy`):

- A path is a sequence of segments. `Dir` drops the last segment, and the empty
  path (the "." or "/" the tree is named from) is its own parent, as with
  Go's `path.Dir`.
- An entry is one of three things:
  - a directory, with its mtime, its `ReadDir` outcome and the watcher's answer
    to `Add`;
  - a plain file, with its mtime and the watcher's answer to `Add`;
  - a path whose `stat` fails with an error other than "does not exist".
- `os.Stat`, `ioutil.ReadDir` and the watcher's `Add` are read off this map.
- The exclusion regular expression is an arbitrary predicate `Path -> bool`. A
  missing pattern is the predicate that is always false.
- The watcher is not modelled. Each function returns the paths it registers, in
  the order it registers them.
- Concurrency becomes sequential steps. One `sendChanges` step takes two snapshots:
  the one `modTime` sees, and the one `isDir` and `watchDir` see a moment later.
  Without the second snapshot, the "`isDir` fails on a Create" branch could never
  happen.
- The main loop is a step function over `(lastRun, lastChange, armed)`. The command
  runner is abstract: an input that can start a run carries that run's completion
  time.

Where the code and the intended design differ, the model follows the code:

- The root is never tested against the exclusion pattern (`StartWatching`).
- A directory created later is walked without an exclusion test on itself
  (main.go:144). `Translate` registers it even when the pattern matches it.
- An event on an excluded path is still reported by the watch on its parent
  directory, and `sendChanges` never consults the pattern. Such an event still
  reaches the main loop and can trigger a run (`Translator.TimeIgnoresExclusion`).
  So "changes confined to excluded paths never trigger a run" does not hold of the
  code.
- `lastChange` is assigned, not raised to the maximum (main.go:71). It is not
  monotone. A change still waiting for its rebuild is forgotten when an older
  timestamp arrives before the timer fires, for example a chmod of an old file
  (`Debounce.PendingChangeLost`).
- A change made while a run is in progress is lost. `run` is synchronous
  (main.go:75, 79) and `sendChanges` blocks on the unbuffered channel
  (main.go:115, 148), so the change's timestamp reaches the loop only after the run.
  That timestamp is earlier than the run's completion time, now stored in
  `lastRun`. The next firing then fails `lastRun.Before(lastChange)` and runs
  nothing (`Debounce.ChangeDuringRunLost`). So a change made during a run does
  not cause a further run, although the design says it should.

## Model

| member | source | states |
|---|---|---|
| Scanner.IsDir | main.go:211-220 | A missing path is `(false, nil)`. A path whose stat fails otherwise passes that error on. Otherwise the result says whether the path is a directory. Each outcome is stated in both directions in terms of the filesystem entry. |
| Scanner.ModTime | main.go:153-169 | An existing path yields exactly its own mtime, or its own stat error. The result is never a "does not exist" error. The made-up "no directory" error only names the base, and only when the base is missing. |
| Scanner.ModTimeNearestAncestor | main.go:153-161 | If `p[..n]` exists and every longer prefix of `p` is missing, `modTime(p)` is the mtime (or stat error) of `p[..n]`. So the walk up `Dir` answers with the nearest existing ancestor. |
| Scanner.ModTimeNoAncestor | main.go:155-160 | `modTime` fails for want of a directory exactly when no prefix of the path exists, down to and including the base. |
| WatchSet.Watch | main.go:199-209 | Registering a path that no longer exists registers nothing. A path whose stat fails, or that the watcher refuses (no permission, watch limit reached), is logged and not registered. An existing path the watcher accepts is registered, and nothing else is. |
| WatchSet.WatchDir | main.go:171-197 | Every registered path is the argument or lies below it. Every registered path other than the argument is a non-excluded directory. Nothing is registered when the argument does not exist. Otherwise the argument is registered last, including when listing it fails. |
| WatchSet.WatchChildren | main.go:181-194 | The loop over a listing only registers non-excluded directories strictly below the parent, each reached through one of the listed names. |
| WatchSet.WatchDirMembership | main.go:171-197 | A path is registered by `watchDir(p)` iff it is watchable and the walk reaches it. "Reaches" means every step from `p` down to it goes to a child that its parent lists, that is not excluded, and that is a directory. |
| WatchSet.WatchChildrenMembership | main.go:181-194 | A path is registered by the child loop iff its first step below the parent is a listed, non-excluded directory, and the walk from that child registers it. |
| WatchSet.WatchDirSkipsExcluded | main.go:181-192 | No registered path is, or lies under, an excluded child of the walk. Every step on the way to a registered path is a directory. |
| WatchSet.WatchDirPostOrder | main.go:181-196 | When listings have no repeated names, no registered path comes before one of its descendants, and no path is registered twice. |
| WatchSet.WatchChildrenPostOrder | main.go:181-194 | The same post-order and no-repeat property holds for the loop over a repeat-free listing. |
| WatchSet.StartWatching | main.go:106-113 | `isDir` failing on the root is fatal, exactly when the root's stat fails. Otherwise the registered paths are exactly the watchable paths the walk from the root reaches. That covers a directory root being walked, a file root being registered alone, and a vanished root registering nothing. With repeat-free listings the registrations are in post-order. A root the watcher accepts is registered last, whether or not it matches the pattern. |
| Translator.Translate | main.go:128-148 | A timestamp is sent iff `modTime` succeeds and the event is not a Create whose `isDir` fails. The timestamp sent is the `modTime` value. The added paths are exactly those the walk from the event's path reaches, and only for a Create of a directory. That created directory is registered last when the watcher accepts it, even if it matches the pattern. |
| Translator.TimeIgnoresExclusion | main.go:128-148 | Whether and what an event sends does not depend on the exclusion pattern. |
| Translator.SendChanges | main.go:122-151 | Over a stretch of events, the timestamps sent are the per-event results in order, at most one per event. Each one is the resolved time of one of the events. The initial watch set is a prefix of the final one, which grows only by the per-event additions. |
| Translator.EmittedResolved | main.go:128-148 | Every timestamp sent over a stretch of events is the `modTime` of one of those events. |
| Debounce.Step | main.go:69-81 | A change overwrites `lastChange` and arms the timer without touching `lastRun`. A rerun always runs, sets `lastRun` to the completion time and leaves `lastChange` and the timer alone. A firing disarms the timer and runs iff `lastRun < lastChange`; otherwise nothing else changes. |
| Debounce.ExecuteAppend | main.go:69-82 | Running two stretches of loop iterations back to back is the same as running their concatenation, with run counts added. |
| Debounce.BurstArmsTimer | main.go:71-72 | A burst of changes runs nothing, leaves `lastRun` unchanged, keeps the burst's last timestamp and leaves the timer armed. |
| Debounce.BurstCollapses | main.go:71-80 | A burst of changes followed by one firing runs the command once if the burst's last timestamp is later than the last run, and otherwise not at all. It leaves the timer disarmed, so no second firing can follow. |
| Debounce.FirstFiringRuns | main.go:64-80 | From the initial state (zero `lastRun`, `lastChange` the start time, timer armed), the first firing runs the command. |
| Debounce.NoRedundantRebuild | main.go:77-80 | Once the last change is covered by a run completed at or after `T`, the timer starts no further run. This holds while no change later than `T` arrives and the clock does not go back. |
| Debounce.TimerRunsBounded | main.go:64-80 | The timer starts at most one run per arming. Timer-started runs never exceed the number of changes received, plus one if the timer was armed at the start. |
| Debounce.ChangeDuringRunLost | main.go:71-79 | From an armed state with a pending change, a firing runs the command, completing at `f`. A change with timestamp `t < f` that arrives next, followed by another firing, starts no second run: exactly one timer run happens, and the loop ends with `lastRun = f`, `lastChange = t`. |
| Debounce.PendingChangeLost | main.go:71 | If a change is waiting for its rebuild and a timestamp no later than the last run arrives, the next firing runs nothing, and `lastChange` has gone down. |

## Left out

- The `ui` interface, `writerUi` and the acme window: they are display plumbing. A manual rerun request appears only as the `Rerun` input.
- `run` (main.go:85-98): the command's execution, its output streaming and its transcript are not modelled. A run is reduced to its completion time, which the input carries.
- Goroutines and channels: the two loops are modelled as separate step functions, and sending a timestamp is the `time` field of a `Translate` result. How they interleave is not modelled.
- `time.Timer`: the 200 ms `rebuildDelay` deadline is not modelled, only whether the timer is armed. A firing is possible only while armed. Go's `Reset` race with an undrained firing is not modelled.
- The watcher itself: its `Errors` channel (fatal at main.go:125-126) is left out, and so is its deduplication of repeated registrations. A watch set here is the sequence of registrations, repeats included.
- `watchDir` sees one snapshot, although the real walk stats and lists over time.
- Regular expressions: compiling them (a bad pattern is fatal at startup) and matching them are replaced by the predicate.
- Flag parsing, `log.Fatal` exits and `debugPrint`. A logged-and-continued error is simply an operation that registers or sends nothing.
- The empty path string: Go's `path.Dir("")` is "." while `""` itself is a different, missing path. The segment model has no separate empty string.
- WatchSet.WatchDirPostOrder: it requires listings without repeated names, which `ReadDir` guarantees. Without that assumption a repeated child would be walked twice.
