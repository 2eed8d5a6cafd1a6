/** WaitForFile: the bounded polling loop. For cycles 1..waitCycles it runs
    `ls <file>` on the remote host; on the first check that succeeds it runs
    `rm <file>` once, whatever that removal returns, and reports the file as
    found; after every failed check it sleeps waitTimeSecs seconds.

    The remote host is an oracle: `checks[k - 1]` is what the connection does
    with the check of cycle k, and `removal` what it does with the removal.
    Beside its verdict the loop returns two logs: the engine's own trace of
    checks, removals and sleeps, and the wire log of sessions. */
module WaitEngine {
  import opened Wrappers
  import opened Session

  /** The configuration record read from the JSON file (SSHScriptConfig).
      The loop reads only the waiter file name, the wait time and the cycle
      count; the other fields feed the connection setup. */
  datatype Config = Config(
    scriptName: string,
    hostname: string,
    userId: string,
    privateKeyFile: string,
    waiterFilename: string,
    waitTimeSecs: int,
    waitCycles: int)

  /** The existence check: the file name is appended without quoting. */
  function LsCommand(filename: string): string
  {
    "ls " + filename
  }

  /** The removal: the file name is appended without quoting. */
  function RmCommand(filename: string): string
  {
    "rm " + filename
  }

  /** Both commands pass the configured name through verbatim after a fixed
      three-character verb, so they differ from each other whatever the names,
      and each determines the file name it was built from. */
  lemma CommandsVerbatim(f: string, g: string)
    ensures LsCommand(f)[..3] == "ls " && LsCommand(f)[3..] == f
    ensures RmCommand(f)[..3] == "rm " && RmCommand(f)[3..] == f
    ensures LsCommand(f) != RmCommand(g)
    ensures LsCommand(f) == LsCommand(g) ==> f == g
    ensures RmCommand(f) == RmCommand(g) ==> f == g
  {
    assert LsCommand(f)[0] == 'l' && RmCommand(g)[0] == 'r';
    if LsCommand(f) == LsCommand(g) {
      assert f == LsCommand(f)[3..] == LsCommand(g)[3..] == g;
    }
    if RmCommand(f) == RmCommand(g) {
      assert f == RmCommand(f)[3..] == RmCommand(g)[3..] == g;
    }
  }

  /** One step of the engine's trace. */
  datatype Event = Check(cycle: int, cmd: string) | Remove(cmd: string) | Sleep(secs: int)

  /** The check of cycle `k` succeeds: ExecuteCommand returns no error. */
  predicate Found(checks: seq<Reply>, k: int)
  {
    1 <= k <= |checks| && checks[k - 1] == RunSucceeds
  }

  /** The first cycle in `from..n` whose check succeeds, if there is one. */
  function FirstFoundFrom(checks: seq<Reply>, from: int, n: int): (r: Option<int>)
    requires 1 <= from
    decreases n - from
    ensures r.Some? ==> from <= r.value <= n && Found(checks, r.value)
    ensures r.Some? ==> forall j :: from <= j < r.value ==> !Found(checks, j)
    ensures r.None? ==> forall j :: from <= j <= n ==> !Found(checks, j)
  {
    if from > n then None
    else if Found(checks, from) then Some(from)
    else FirstFoundFrom(checks, from + 1, n)
  }

  /** The cycle on which the file is found within `n` cycles, if any. */
  function FirstFound(checks: seq<Reply>, n: int): Option<int>
  {
    FirstFoundFrom(checks, 1, n)
  }

  /** The verdict means exactly that some check within the bound succeeded. */
  lemma FoundIffSomeCheckSucceeds(checks: seq<Reply>, n: int)
    ensures FirstFound(checks, n).Some? <==> exists j :: 1 <= j <= n && Found(checks, j)
  {
    var r := FirstFound(checks, n);
    if r.Some? {
      assert Found(checks, r.value);
    }
  }

  /** The trace of cycles 1..m when each of their checks failed. */
  function FailedRounds(ls: string, secs: int, m: nat): seq<Event>
  {
    if m == 0 then [] else FailedRounds(ls, secs, m - 1) + [Check(m, ls), Sleep(secs)]
  }

  /** How many cycles a bound of `n` lets run: none when it is not positive. */
  function CyclesRun(n: int): nat
  {
    if n < 0 then 0 else n
  }

  /** The trace the loop produces: every failed cycle up to the first success
      (or up to the bound), then the successful check and the removal. */
  function PollTrace(cfg: Config, checks: seq<Reply>): seq<Event>
  {
    var ls := LsCommand(cfg.waiterFilename);
    match FirstFound(checks, cfg.waitCycles)
    case None => FailedRounds(ls, cfg.waitTimeSecs, CyclesRun(cfg.waitCycles))
    case Some(k) => FailedRounds(ls, cfg.waitTimeSecs, k - 1) + [Check(k, ls), Remove(RmCommand(cfg.waiterFilename))]
  }

  /** The wire log of one command: nothing when its session fails to open,
      otherwise one complete session running it. */
  function SessionOf(cmd: string, reply: Reply): seq<SessionEvent>
  {
    if reply == OpenFails then [] else OneSession(cmd)
  }

  /** The wire log of the checks of cycles 1..m, in order. */
  function CheckSessions(ls: string, checks: seq<Reply>, m: nat): seq<SessionEvent>
    requires m <= |checks|
  {
    if m == 0 then [] else CheckSessions(ls, checks, m - 1) + SessionOf(ls, checks[m - 1])
  }

  /** The wire log the loop produces: one session for every check run whose
      session opens, then, when the file was found, the removal's session if
      it opens. */
  function PollWire(cfg: Config, checks: seq<Reply>, removal: Reply): seq<SessionEvent>
    requires cfg.waitCycles <= |checks|
  {
    var ls := LsCommand(cfg.waiterFilename);
    match FirstFound(checks, cfg.waitCycles)
    case None => CheckSessions(ls, checks, CyclesRun(cfg.waitCycles))
    case Some(k) => CheckSessions(ls, checks, k) + SessionOf(RmCommand(cfg.waiterFilename), removal)
  }

  /** The polling loop (WaitForFile). The verdict is whether some check within
      the bound succeeds, independent of what the removal returns; the trace
      is PollTrace; the wire log is PollWire, a run of complete sessions, each
      running one of the two commands, and the removal's session appears in
      it only when the file was found. */
  method WaitForFile(cfg: Config, checks: seq<Reply>, removal: Reply)
    returns (fileFound: bool, trace: seq<Event>, wire: seq<SessionEvent>)
    requires cfg.waitCycles <= |checks|
    ensures fileFound <==> FirstFound(checks, cfg.waitCycles).Some?
    ensures trace == PollTrace(cfg, checks)
    ensures wire == PollWire(cfg, checks, removal)
    ensures Bracketed(wire, {LsCommand(cfg.waiterFilename), RmCommand(cfg.waiterFilename)})
    ensures Count(wire, Run(RmCommand(cfg.waiterFilename))) == (if fileFound && removal != OpenFails then 1 else 0)
    ensures cfg.waitCycles <= 0 ==> !fileFound && trace == [] && wire == []
  {
    fileFound := false;

    var lsCmd := LsCommand(cfg.waiterFilename);
    var rmCmd := RmCommand(cfg.waiterFilename);
    ghost var cmds := {lsCmd, rmCmd};
    CommandsVerbatim(cfg.waiterFilename, cfg.waiterFilename);
    trace, wire := [], [];

    var loopCycle := 1;
    while true
      invariant 1 <= loopCycle
      invariant loopCycle == 1 || loopCycle <= cfg.waitCycles + 1
      invariant forall j :: 1 <= j < loopCycle ==> !Found(checks, j)
      invariant trace == FailedRounds(lsCmd, cfg.waitTimeSecs, loopCycle - 1)
      invariant wire == CheckSessions(lsCmd, checks, loopCycle - 1)
      invariant Bracketed(wire, cmds)
      invariant Count(wire, Run(rmCmd)) == 0
      invariant loopCycle == 1 ==> wire == []
      decreases cfg.waitCycles + 1 - loopCycle
    {
      if loopCycle > cfg.waitCycles {
        break;
      }

      var err, events := ExecuteCommand(lsCmd, checks[loopCycle - 1]);
      LogSessions(wire, events, lsCmd, cmds);
      wire := wire + events;
      trace := trace + [Check(loopCycle, lsCmd)];
      if err == None {
        assert Found(checks, loopCycle);
        var rmErr, rmEvents := ExecuteCommand(rmCmd, removal);
        // a failed removal is only logged: the verdict stands
        LogSessions(wire, rmEvents, rmCmd, cmds);
        wire := wire + rmEvents;
        trace := trace + [Remove(rmCmd)];
        fileFound := true;
        break;
      }
      // time.Sleep(waitTimeSecs seconds)
      trace := trace + [Sleep(cfg.waitTimeSecs)];
      loopCycle := loopCycle + 1;
    }
  }

  /** Appending one command's session log keeps the wire log a run of
      complete sessions and adds its count of removals. */
  lemma LogSessions(wire: seq<SessionEvent>, events: seq<SessionEvent>, cmd: string, cmds: set<string>)
    requires Bracketed(wire, cmds) && Bracketed(events, {cmd}) && cmd in cmds
    requires events == [] || events == OneSession(cmd)
    ensures Bracketed(wire + events, cmds)
    ensures forall c :: Count(wire + events, Run(c)) == Count(wire, Run(c)) + (if events != [] && c == cmd then 1 else 0)
  {
    if events == [] {
      assert wire + events == wire;
    } else {
      OneSessionBracketed(cmd, cmds);
      BracketedAppend(wire, events, cmds);
      forall c ensures Count(wire + events, Run(c)) == Count(wire, Run(c)) + (if c == cmd then 1 else 0) {
        CountAppend(wire, events, Run(c));
      }
    }
  }

  // ---------------------------------------------------------------------
  // What the trace shows: the checks issued, the removals, the sleeps.

  /** The cycle numbers of the checks in `t`, in order. */
  function CheckCycles(t: seq<Event>): seq<int>
  {
    if t == [] then [] else (if t[0].Check? then [t[0].cycle] else []) + CheckCycles(t[1..])
  }

  /** How many removals `t` issues. */
  function RemoveCount(t: seq<Event>): nat
  {
    if t == [] then 0 else (if t[0].Remove? then 1 else 0) + RemoveCount(t[1..])
  }

  /** How many sleeps `t` holds. */
  function SleepCount(t: seq<Event>): nat
  {
    if t == [] then 0 else (if t[0].Sleep? then 1 else 0) + SleepCount(t[1..])
  }

  /** The seconds slept in `t` altogether. */
  function SleepTime(t: seq<Event>): int
  {
    if t == [] then 0 else (if t[0].Sleep? then t[0].secs else 0) + SleepTime(t[1..])
  }

  lemma {:induction false} TallyAppend(a: seq<Event>, b: seq<Event>)
    ensures CheckCycles(a + b) == CheckCycles(a) + CheckCycles(b)
    ensures RemoveCount(a + b) == RemoveCount(a) + RemoveCount(b)
    ensures SleepCount(a + b) == SleepCount(a) + SleepCount(b)
    ensures SleepTime(a + b) == SleepTime(a) + SleepTime(b)
  {
    if a == [] {
      assert a + b == b;
    } else {
      assert (a + b)[0] == a[0];
      assert (a + b)[1..] == a[1..] + b;
      TallyAppend(a[1..], b);
    }
  }

  /** What a one-event trace contributes to each tally. */
  lemma TallySingle(e: Event)
    ensures CheckCycles([e]) == (if e.Check? then [e.cycle] else [])
    ensures RemoveCount([e]) == (if e.Remove? then 1 else 0)
    ensures SleepCount([e]) == (if e.Sleep? then 1 else 0)
    ensures SleepTime([e]) == (if e.Sleep? then e.secs else 0)
  {
    assert [e][1..] == [];
  }

  /** Cycles 1..m that all failed: each check, numbered in order, is followed
      directly by one sleep of the configured length. */
  lemma {:induction false} FailedRoundsAt(ls: string, secs: int, m: nat)
    ensures |FailedRounds(ls, secs, m)| == 2 * m
    ensures forall i :: 0 <= i < 2 * m ==>
      FailedRounds(ls, secs, m)[i] == if i % 2 == 0 then Check(i / 2 + 1, ls) else Sleep(secs)
  {
    if m > 0 {
      FailedRoundsAt(ls, secs, m - 1);
    }
  }

  /** Cycles 1..m that all failed hold m checks numbered 1..m, no removal,
      and m sleeps: the last failed check is followed by a sleep too. */
  lemma {:induction false} FailedRoundsTally(ls: string, secs: int, m: nat)
    ensures |CheckCycles(FailedRounds(ls, secs, m))| == m
    ensures forall i :: 0 <= i < m ==> CheckCycles(FailedRounds(ls, secs, m))[i] == i + 1
    ensures RemoveCount(FailedRounds(ls, secs, m)) == 0
    ensures SleepCount(FailedRounds(ls, secs, m)) == m
    ensures SleepTime(FailedRounds(ls, secs, m)) == m * secs
  {
    if m > 0 {
      FailedRoundsTally(ls, secs, m - 1);
      assert [Check(m, ls)] + [Sleep(secs)] == [Check(m, ls), Sleep(secs)];
      TallyAppend(FailedRounds(ls, secs, m - 1), [Check(m, ls)] + [Sleep(secs)]);
      TallyAppend([Check(m, ls)], [Sleep(secs)]);
      TallySingle(Check(m, ls));
      TallySingle(Sleep(secs));
      assert (m - 1) * secs + secs == m * secs;
    }
  }

  // ---------------------------------------------------------------------
  // The loop's promises, stated on the trace it is proved to produce.

  /** No cycles to run: no command, no sleep, and the file is not found. */
  lemma NoCycles(cfg: Config, checks: seq<Reply>)
    requires cfg.waitCycles <= 0
    ensures FirstFound(checks, cfg.waitCycles) == None
    ensures PollTrace(cfg, checks) == []
  {
  }

  /** Every check fails: exactly waitCycles checks, numbered 1..waitCycles in
      order, no removal, one sleep after each failed check (waitCycles sleeps
      in all, the last one included), and the file is not found. */
  lemma {:induction false} NeverFound(cfg: Config, checks: seq<Reply>)
    requires 0 <= cfg.waitCycles
    requires forall j :: 1 <= j <= cfg.waitCycles ==> !Found(checks, j)
    ensures FirstFound(checks, cfg.waitCycles) == None
    ensures |CheckCycles(PollTrace(cfg, checks))| == cfg.waitCycles
    ensures forall i :: 0 <= i < cfg.waitCycles ==> CheckCycles(PollTrace(cfg, checks))[i] == i + 1
    ensures RemoveCount(PollTrace(cfg, checks)) == 0
    ensures SleepCount(PollTrace(cfg, checks)) == cfg.waitCycles
    ensures SleepTime(PollTrace(cfg, checks)) == cfg.waitCycles * cfg.waitTimeSecs
  {
    FailedRoundsTally(LsCommand(cfg.waiterFilename), cfg.waitTimeSecs, cfg.waitCycles);
  }

  /** The first successful check is on cycle k: exactly k checks, numbered
      1..k, one removal, which ends the trace right after the check of cycle
      k, and k - 1 sleeps; the file is found. */
  lemma {:induction false} FoundOn(cfg: Config, checks: seq<Reply>, k: int)
    requires 1 <= k <= cfg.waitCycles
    requires Found(checks, k)
    requires forall j :: 1 <= j < k ==> !Found(checks, j)
    ensures FirstFound(checks, cfg.waitCycles) == Some(k)
    ensures |CheckCycles(PollTrace(cfg, checks))| == k
    ensures forall i :: 0 <= i < k ==> CheckCycles(PollTrace(cfg, checks))[i] == i + 1
    ensures RemoveCount(PollTrace(cfg, checks)) == 1
    ensures SleepCount(PollTrace(cfg, checks)) == k - 1
    ensures SleepTime(PollTrace(cfg, checks)) == (k - 1) * cfg.waitTimeSecs
    ensures PollTrace(cfg, checks)[|PollTrace(cfg, checks)| - 1] == Remove(RmCommand(cfg.waiterFilename))
    ensures PollTrace(cfg, checks)[|PollTrace(cfg, checks)| - 2] == Check(k, LsCommand(cfg.waiterFilename))
  {
    var ls, rm, secs := LsCommand(cfg.waiterFilename), RmCommand(cfg.waiterFilename), cfg.waitTimeSecs;
    var tail := [Check(k, ls), Remove(rm)];
    assert PollTrace(cfg, checks) == FailedRounds(ls, secs, k - 1) + tail;
    FailedRoundsTally(ls, secs, k - 1);
    assert tail == [Check(k, ls)] + [Remove(rm)];
    TallyAppend(FailedRounds(ls, secs, k - 1), tail);
    TallyAppend([Check(k, ls)], [Remove(rm)]);
    TallySingle(Check(k, ls));
    TallySingle(Remove(rm));
  }

  /** The order of events at any position of the trace: every check is of the
      `ls` command for a cycle within the bound; a failed check is followed
      directly by one sleep of waitTimeSecs and a successful one directly by
      the removal, which ends the trace; a sleep only ever follows a failed
      check and a removal only the successful check of the same cycle. */
  lemma {:induction false} TraceOrder(cfg: Config, checks: seq<Reply>, i: int)
    requires 0 <= i < |PollTrace(cfg, checks)|
    ensures var t := PollTrace(cfg, checks);
      t[i].Check? ==>
        t[i].cmd == LsCommand(cfg.waiterFilename) && 1 <= t[i].cycle <= cfg.waitCycles && i + 1 < |t|
    ensures var t := PollTrace(cfg, checks);
      t[i].Check? && !Found(checks, t[i].cycle) ==> i + 1 < |t| && t[i + 1] == Sleep(cfg.waitTimeSecs)
    ensures var t := PollTrace(cfg, checks);
      t[i].Check? && Found(checks, t[i].cycle) ==>
        i + 2 == |t| && t[i + 1] == Remove(RmCommand(cfg.waiterFilename))
    ensures var t := PollTrace(cfg, checks);
      t[i].Sleep? ==>
        t[i].secs == cfg.waitTimeSecs && 0 < i && t[i - 1].Check? && !Found(checks, t[i - 1].cycle)
    ensures var t := PollTrace(cfg, checks);
      t[i].Remove? ==>
        t[i].cmd == RmCommand(cfg.waiterFilename) && i == |t| - 1 && 0 < i &&
        t[i - 1].Check? && Found(checks, t[i - 1].cycle)
  {
    var t := PollTrace(cfg, checks);
    var ls, rm, secs := LsCommand(cfg.waiterFilename), RmCommand(cfg.waiterFilename), cfg.waitTimeSecs;
    var r := FirstFound(checks, cfg.waitCycles);
    // m cycles failed before the trace ends or reaches the successful check
    var m: nat := if r.Some? then r.value - 1 else CyclesRun(cfg.waitCycles);
    var failed := FailedRounds(ls, secs, m);
    FailedRoundsAt(ls, secs, m);
    assert t[..2 * m] == failed && (r.None? ==> t == failed);
    assert forall j :: 1 <= j <= m ==> !Found(checks, j);
    if i < 2 * m {
      assert t[i] == failed[i];
      if i % 2 == 0 {
        assert t[i] == Check(i / 2 + 1, ls);
        assert t[i + 1] == failed[i + 1] == Sleep(secs);
      } else {
        assert t[i - 1] == failed[i - 1] == Check((i - 1) / 2 + 1, ls);
      }
    } else {
      assert r.Some? && t == failed + [Check(m + 1, ls), Remove(rm)];
      assert i == 2 * m ==> t[i] == Check(m + 1, ls) && t[i + 1] == Remove(rm);
      assert i == 2 * m + 1 ==> t[i] == Remove(rm) && t[i - 1] == Check(m + 1, ls);
    }
  }

  /** Three cycles one second apart, the file never appears: three checks,
      no removal, three seconds of sleep, not found. */
  lemma ScenarioNeverAppears(cfg: Config, checks: seq<Reply>)
    requires cfg.waitCycles == 3 && cfg.waitTimeSecs == 1
    requires checks == [RunFails, OpenFails, RunFails]
    ensures FirstFound(checks, cfg.waitCycles) == None
    ensures CheckCycles(PollTrace(cfg, checks)) == [1, 2, 3]
    ensures RemoveCount(PollTrace(cfg, checks)) == 0
    ensures SleepTime(PollTrace(cfg, checks)) == 3
  {
    NeverFound(cfg, checks);
  }

  /** Five cycles one second apart, the file appears on the second check:
      two checks, one removal, one second of sleep, found. */
  lemma ScenarioAppearsOnSecond(cfg: Config, checks: seq<Reply>)
    requires cfg.waitCycles == 5 && cfg.waitTimeSecs == 1
    requires |checks| == 5 && checks[0] == RunFails && checks[1] == RunSucceeds
    ensures FirstFound(checks, cfg.waitCycles) == Some(2)
    ensures CheckCycles(PollTrace(cfg, checks)) == [1, 2]
    ensures RemoveCount(PollTrace(cfg, checks)) == 1
    ensures SleepTime(PollTrace(cfg, checks)) == 1
  {
    FoundOn(cfg, checks, 2);
  }
}
