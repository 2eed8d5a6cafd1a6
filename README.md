# SSHWaiterUtil in Dafny

SSHWaiterUtil waits for a remote process to finish its work. It logs in to a
remote host over SSH. Then it polls, with one remote command per attempt, for
a "waiter" file that the remote process drops when it is done. When the file
appears, it removes it and reports success. It gives up after a fixed number
of attempts.

This project models the three parts of `main.go` that carry logic:

- `WaitForFile`, the bounded polling loop (module `WaitEngine`,
  `wait_engine.dfy`). For cycles `1..waitCycles` it runs `ls <file>`. On the
  first check that succeeds, it runs `rm <file>` once and ignores the result,
  then reports the file as found. After every failed check it sleeps
  `waitTimeSecs` seconds.
- `ExecuteCommand`, which runs one command on a session of its own and
  releases that session through a deferred `Close` (module `Session`,
  `session.dfy`).
- The byte-order-mark step of `ReadJSONConfigFile`, which drops one leading
  `EF BB BF` before the JSON is decoded (module `Bom`, `bom.dfy`).

The remote host is not computable, so it becomes an oracle. A `Reply` says
what the connection does with one command: the session cannot be opened, the
command fails, or the command succeeds. `WaitForFile` takes one `Reply` per
cycle for the `ls` checks and one `Reply` for the removal. Besides its
verdict, it returns two logs as real results:

- the engine trace: `Check(cycle, cmd)`, `Remove(cmd)` and `Sleep(secs)`;
- the wire log of sessions: `Open`, `Run(cmd)` and `Close`.

The method is proved to produce exactly `PollTrace` and `PollWire`, reference
definitions built from `FirstFound` (the first cycle whose check succeeds).
The lemmas then state the loop's promises about that trace.

Two behaviours of the code are kept as written:

- The code sleeps after every failed check, including the last one, because
  main.go:158 runs before the bound test at main.go:142. So `N` failed checks
  give `N` sleeps.
- The commands append the file name unquoted (main.go:137-138), so shell
  metacharacters in the name reach the remote shell. The model does the same
  (`CommandsVerbatim`).

## Model

| member | source | states |
|---|---|---|
| `WaitEngine.WaitForFile` | main.go:133-164 | The verdict is true iff some check within `waitCycles` succeeds, whatever the removal returns. The trace equals `PollTrace`. The wire log equals `PollWire`: one complete session of `ls` for each checked cycle whose session opens, in cycle order, then the `rm` session if the file was found and that session opens. It is a run of complete open/run/close sessions, each running the `ls` or the `rm` command. The `rm` command runs once if the file was found and its session opened, and never otherwise. With `waitCycles <= 0`, nothing is issued and the result is false. |
| `WaitEngine.FirstFoundFrom` | main.go:140-156 | The result is the first cycle in the range whose check succeeds: every earlier cycle in the range failed. `None` means every cycle in the range failed. |
| `WaitEngine.FoundIffSomeCheckSucceeds` | main.go:146-156 | The loop's verdict holds exactly when some cycle within the bound has a successful check. |
| `WaitEngine.NoCycles` | main.go:140-144 | With `waitCycles <= 0`, the trace is empty (no check, no removal, no sleep) and the file is not found. |
| `WaitEngine.NeverFound` | main.go:140-160 | If every check fails: `waitCycles` checks numbered `1..waitCycles` in order, no removal, `waitCycles` sleeps totalling `waitCycles * waitTimeSecs` seconds, verdict false. |
| `WaitEngine.FoundOn` | main.go:146-156 | If cycle `k` has the first successful check: `k` checks numbered `1..k`, one removal, `k - 1` sleeps, verdict true. The trace ends with `Check(k, ls)` followed by `Remove(rm)`. |
| `WaitEngine.TraceOrder` | main.go:146-158 | At every position: each check is of `ls` and its cycle is within the bound. A failed check is directly followed by one sleep of `waitTimeSecs`. A successful check is directly followed by the removal, which ends the trace. A sleep only follows a failed check, and a removal only follows the successful check of its cycle. |
| `WaitEngine.FailedRoundsAt` | main.go:146-160 | In cycles that all failed, position `2i` holds the check of cycle `i + 1` and position `2i + 1` holds one sleep of the configured length. |
| `WaitEngine.FailedRoundsTally` | main.go:140-160 | `m` failed cycles hold `m` checks numbered `1..m`, no removal, and `m` sleeps totalling `m * secs`. |
| `WaitEngine.CommandsVerbatim` | main.go:137-138 | The commands are `"ls "` and `"rm "` followed by the unquoted file name. They never coincide, and each one determines the file name it was built from. |
| `WaitEngine.ScenarioNeverAppears` | main.go:140-160 | With 3 cycles of 1 s and no successful check: checks 1, 2, 3, no removal, 3 s of sleep, not found. |
| `WaitEngine.ScenarioAppearsOnSecond` | main.go:140-160 | With 5 cycles of 1 s and the file present on the second check: checks 1, 2, one removal, 1 s of sleep, found. |
| `Session.ExecuteCommand` | main.go:116-131 | The result is an error iff the session fails to open or the command fails. The error is the open error exactly when the open failed. A failed open logs nothing, so nothing is closed. An opened session logs `Open`, `Run(cmd)`, `Close`: it is closed exactly once, after its command, on both the failure and the success path. |
| `Session.BracketedBalanced` | main.go:118-129 | In a run of complete sessions, opens and closes are equal in number, with one command per session. |
| `Bom.TrimMark` | main.go:101 | The result is a suffix of the input. It is exactly three bytes shorter iff the input starts with `EF BB BF`, and equal to the input otherwise. |
| `Bom.TrimAfterMark` | main.go:101 | Trimming undoes prefixing the mark: `TrimMark(Mark + s) == s`. |
| `Bom.TrimWithoutMark` | main.go:101 | Input that does not start with the full mark is returned unchanged. This includes input shorter than three bytes. |
| `Bom.TrimRemovesOnlyOne` | main.go:101 | Only one mark is removed: a doubled mark leaves the second one in place, so trimming is not idempotent. |
| `Bom.TrimSplitsInput` | main.go:101 | The input is the removed mark (or nothing) followed by the trimmed output. |

## Left out

- `OpenSSHConnection` (main.go:62-90) is not modelled: reading the key file, parsing the key, accepting any host key and dialling are library and network calls.
- `ReadJSONConfigFile` is modelled only in its byte-order-mark step. Reading the file and `json.Unmarshal` are I/O and library parsing. The configuration record appears as the `Config` datatype.
- `main` and `InitProcess` are not modelled: flag parsing, `os.Exit`, `log.Fatalln` (both fatal exits, main.go:44 and main.go:51, come before the connection's deferred `Close` is registered at main.go:54), and that deferred close itself.
- Logging has no behavioural content and is left out.
- `time.Sleep` is a trace event carrying the configured number of seconds, not wall-clock time.
- `WaitEngine.WaitForFile`: the oracle must supply a reply for every cycle the bound allows (`waitCycles <= |checks|`). This is a demand on the model's environment, not on the code's callers.
- `WaitEngine.WaitForFile`: does not model Go's 64-bit `int`. With `waitCycles` at the largest `int`, `loopCycle` would wrap after that many failed cycles and the loop would not stop. Here integers are unbounded.
- `WaitEngine.WaitForFile`: does not model the conversion `time.Duration(waitTimeSecs) * time.Second`. That product overflows for very large values, and a negative duration does not sleep at all. The `Sleep` event records the configured seconds as given.
- `Session.ExecuteCommand`: the connection is not an object here. A session is opened, run and closed as events in a log, so sharing one connection between sessions is not modelled.
