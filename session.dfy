/** ExecuteCommand: one remote command run on a session of its own, carved
    from the established connection. The session is released by a deferred
    Close on every path that opened it. What the remote side does with a
    command is not computable here, so it is a parameter: a `Reply`. */
module Session {
  import opened Wrappers

  /** What the connection does with one command: the session cannot be
      opened, the command runs and fails (non-zero exit status or transport
      failure, which the caller cannot tell apart), or it runs and succeeds. */
  datatype Reply = OpenFails | RunFails | RunSucceeds

  /** The error ExecuteCommand returns: the one from NewSession or the one
      from Run. */
  datatype Error = OpenError | RunError

  /** What happens on the connection, in order. */
  datatype SessionEvent = Open | Run(cmd: string) | Close

  /** How often `e` occurs in the wire log `w`. */
  function Count(w: seq<SessionEvent>, e: SessionEvent): nat
  {
    if w == [] then 0 else (if w[0] == e then 1 else 0) + Count(w[1..], e)
  }

  lemma {:induction false} CountAppend(a: seq<SessionEvent>, b: seq<SessionEvent>, e: SessionEvent)
    ensures Count(a + b, e) == Count(a, e) + Count(b, e)
  {
    if a == [] {
      assert a + b == b;
    } else {
      assert (a + b)[0] == a[0];
      assert (a + b)[1..] == a[1..] + b;
      CountAppend(a[1..], b, e);
    }
  }

  /** `w` is a run of complete sessions: each is opened, runs exactly one
      command drawn from `cmds`, and is closed before the next one opens. */
  predicate Bracketed(w: seq<SessionEvent>, cmds: set<string>)
    decreases |w|
  {
    w == [] ||
    (|w| >= 3 && w[0] == Open && w[1].Run? && w[1].cmd in cmds && w[2] == Close &&
     Bracketed(w[3..], cmds))
  }

  /** The log of one session that ran `cmd`. */
  function OneSession(cmd: string): seq<SessionEvent>
  {
    [Open, Run(cmd), Close]
  }

  lemma OneSessionBracketed(cmd: string, cmds: set<string>)
    requires cmd in cmds
    ensures Bracketed(OneSession(cmd), cmds)
    ensures Count(OneSession(cmd), Open) == 1 && Count(OneSession(cmd), Close) == 1
    ensures forall c :: Count(OneSession(cmd), Run(c)) == (if c == cmd then 1 else 0)
  {
    var w := OneSession(cmd);
    assert w[3..] == [];
    assert w[1..] == [Run(cmd), Close];
    assert w[1..][1..] == [Close];
    assert w[1..][1..][1..] == [];
    forall e ensures Count(w, e) == (if e == Open then 1 else 0) + (if e == Run(cmd) then 1 else 0) + (if e == Close then 1 else 0) {
      assert Count([Close], e) == (if e == Close then 1 else 0) + Count([], e);
    }
  }

  /** Complete sessions may follow one another. */
  lemma {:induction false} BracketedAppend(a: seq<SessionEvent>, b: seq<SessionEvent>, cmds: set<string>)
    requires Bracketed(a, cmds) && Bracketed(b, cmds)
    ensures Bracketed(a + b, cmds)
    decreases |a|
  {
    if a == [] {
      assert a + b == b;
    } else {
      assert (a + b)[0] == a[0] && (a + b)[1] == a[1] && (a + b)[2] == a[2];
      assert (a + b)[3..] == a[3..] + b;
      BracketedAppend(a[3..], b, cmds);
    }
  }

  /** In a run of complete sessions every opened session is closed exactly
      once, and there is one command run per session. */
  lemma {:induction false} BracketedBalanced(w: seq<SessionEvent>, cmds: set<string>)
    requires Bracketed(w, cmds)
    ensures Count(w, Open) == Count(w, Close) == |w| / 3
    ensures |w| % 3 == 0
    decreases |w|
  {
    if w != [] {
      BracketedBalanced(w[3..], cmds);
      assert w == OneSession(w[1].cmd) + w[3..];
      OneSessionBracketed(w[1].cmd, {w[1].cmd});
      CountAppend(OneSession(w[1].cmd), w[3..], Open);
      CountAppend(OneSession(w[1].cmd), w[3..], Close);
    }
  }

  /** Runs `cmd` on a fresh session (ExecuteCommand). The result is an error
      exactly when the session could not be opened or the command failed;
      the log shows that a session which was opened was closed exactly once,
      after its command, and that a failed open closed nothing. */
  method ExecuteCommand(cmd: string, reply: Reply) returns (err: Option<Error>, events: seq<SessionEvent>)
    ensures err == None <==> reply == RunSucceeds
    ensures err == Some(OpenError) <==> reply == OpenFails
    ensures reply == OpenFails ==> events == []
    ensures reply != OpenFails ==> events == OneSession(cmd)
    ensures Bracketed(events, {cmd})
    ensures Count(events, Open) == Count(events, Close) == (if reply == OpenFails then 0 else 1)
  {
    // conn.NewSession()
    if reply == OpenFails {
      return Some(OpenError), [];
    }
    OneSessionBracketed(cmd, {cmd});
    events := [Open];
    // defer sess.Close(): appended on both returns below
    events := events + [Run(cmd)];
    if reply == RunFails {
      events := events + [Close];
      return Some(RunError), events;
    }
    events := events + [Close];
    err := None;
  }
}
