/** Where every frame that is ever resumed comes from: in any run since the
    boot, a halt goes back to the execute that started the program, and the
    timer goes back to the event that took the processor away. */
module CallStackHistories {
  import opened FileSystem
  import opened CallStacks
  import opened CallStackRuns
  import D = Descriptors

  /** The state after the first `i` events since the boot. */
  ghost function After(img: Image, events: seq<Event>, i: nat): (s: Sys)
    requires WellFormed(img) && i <= |events|
    ensures Valid(img, s)
  {
    BootStateValid(img);
    Run(img, BOOT_STATE, events[..i])
  }

  lemma AfterNext(img: Image, events: seq<Event>, i: nat)
    requires WellFormed(img) && i < |events|
    ensures After(img, events, i + 1) == Step(img, After(img, events, i), events[i]).0
  {
    BootStateValid(img);
    assert events[..i + 1] == events[..i] + [events[i]];
    RunExtends(img, BOOT_STATE, events[..i], events[i]);
  }

  // ------------------------------------------------------------------
  // Programs
  // ------------------------------------------------------------------

  /** Event `i` started the process at depth `k` of terminal `t`'s stack, and
      the stack has stayed higher than `k` in all states from `i + 1` up to `n`. */
  ghost predicate StartedBy(img: Image, events: seq<Event>, i: nat, n: nat, t: int, k: nat)
    requires WellFormed(img) && n <= |events|
  {
    && i < n && events[i].Execute?
    && var s := After(img, events, i);
       && s.cur == t && |s.stacks[t]| == k && Step(img, s, events[i]).1.Started?
       && (forall j :: i < j <= n ==> Higher(After(img, events, j), t, k))
       && HasProcess(After(img, events, n), t, k, Step(img, s, events[i]).1.pid, events[i].frame)
       && After(img, events, n).stacks[t][..k] == s.stacks[t]
  }

  ghost predicate Higher(s: Sys, t: int, k: nat) {
    t in s.stacks && |s.stacks[t]| > k
  }

  ghost predicate HasProcess(s: Sys, t: int, k: nat, pid: int, frame: Token) {
    Higher(s, t, k) && s.stacks[t][k].pid == pid && s.stacks[t][k].resume == Some(frame)
  }

  /** A stack that is higher than `k > 0` only now has just had a program started on it. */
  lemma JustStarted(img: Image, s: Sys, e: Event, t: int, k: nat)
    requires WellFormed(img) && Valid(img, s) && k > 0
    requires !Higher(s, t, k) && Higher(Step(img, s, e).0, t, k)
    ensures e.Execute? && s.cur == t && |s.stacks[t]| == k && Step(img, s, e).1.Started?
    ensures var s' := Step(img, s, e).0;
            HasProcess(s', t, k, Step(img, s, e).1.pid, e.frame) && s'.stacks[t][..k] == s.stacks[t]
  {
    hide WellFormed, D.Step, D.TableOk;
  }

  /** Every program that is running, or waiting for one it has called, was
      started by an execute of this run. */
  lemma {:induction false} EveryProgramWasStarted(img: Image, events: seq<Event>, n: nat, t: int, k: nat) returns (i: nat)
    requires WellFormed(img) && n <= |events| && k > 0 && Higher(After(img, events, n), t, k)
    ensures StartedBy(img, events, i, n, t, k)
    decreases n
  {
    hide Valid, Step;
    if n == 0 {
      assert false;
    }
    AfterNext(img, events, n - 1);
    var s := After(img, events, n - 1);
    if Higher(s, t, k) {
      i := EveryProgramWasStarted(img, events, n - 1, t, k);
      StepLeavesCallers(img, s, events[n - 1], t, k);
    } else {
      i := n - 1;
      JustStarted(img, s, events[i], t, k);
    }
  }

  /** In any run, the halt of a program that is not a terminal's own shell
      resumes the frame saved by the very execute that started it, the program
      having lived ever since, and leaves its terminal's stack exactly as that
      execute found it. */
  lemma HaltGoesBackToItsExecute(img: Image, events: seq<Event>, status: nat, frame: Token) returns (i: nat)
    requires WellFormed(img)
    requires var s := After(img, events, |events|); |s.stacks[s.cur]| > 1
    ensures var s := After(img, events, |events|);
            StartedBy(img, events, i, |events|, s.cur, |s.stacks[s.cur]| - 1)
    ensures var s0, s := After(img, events, i), After(img, events, |events|);
            var (s', outcome) := Step(img, s, Halt(status, frame));
            && Step(img, s0, events[i]).1 == Started(Running(s).pid)
            && outcome.Resumed? && outcome.frame == events[i].frame
            && (status <= 256 ==> outcome.code == status)
            && (status > 256 ==> outcome.code == status % 256)
            && s'.cur == s0.cur && s'.stacks[s'.cur] == s0.stacks[s'.cur]
  {
    hide ExitCode, CyclicNext, WellFormed;
    var s := After(img, events, |events|);
    var t, k := s.cur, |s.stacks[s.cur]| - 1;
    i := EveryProgramWasStarted(img, events, |events|, t, k);
    HaltCode(img, s, status, frame);
  }

  // ------------------------------------------------------------------
  // Threads
  // ------------------------------------------------------------------

  /** Event `i` took the processor from terminal `t`, which has not had it since. */
  ghost predicate LeftAt(img: Image, events: seq<Event>, i: nat, n: nat, t: int)
    requires WellFormed(img) && n <= |events|
  {
    && i < n && (events[i].Tick? || events[i].SelectTerminal?)
    && After(img, events, i).cur == t
    && (forall j :: i < j <= n ==> After(img, events, j).cur != t)
    && IsParked(After(img, events, n), t, events[i].frame, After(img, events, i).stacks[t])
  }

  ghost predicate IsParked(s: Sys, t: int, frame: Token, stack: seq<Proc>) {
    t in s.parked && t in s.stacks && s.parked[t] == frame && s.stacks[t] == stack
  }

  lemma JustLeft(img: Image, s: Sys, e: Event)
    requires WellFormed(img) && Valid(img, s) && Step(img, s, e).0.cur != s.cur
    ensures (e.Tick? || e.SelectTerminal?) && IsParked(Step(img, s, e).0, s.cur, e.frame, s.stacks[s.cur])
  {
  }

  lemma NotBackYet(img: Image, s: Sys, e: Event, t: int)
    requires WellFormed(img) && Valid(img, s) && s.cur != t && t in Step(img, s, e).0.parked
    ensures t in s.parked && Step(img, s, e).0.cur != t && Step(img, s, e).0.parked[t] == s.parked[t]
    ensures t in s.stacks && t in Step(img, s, e).0.stacks && Step(img, s, e).0.stacks[t] == s.stacks[t]
  {
    StepKeepsValid(img, s, e);
  }

  lemma LeftJustNow(img: Image, events: seq<Event>, n: nat, t: int)
    requires WellFormed(img) && n < |events| && After(img, events, n).cur == t
    requires t in After(img, events, n + 1).parked
    ensures LeftAt(img, events, n, n + 1, t)
  {
    AfterNext(img, events, n);
    JustLeft(img, After(img, events, n), events[n]);
  }

  lemma StillAway(img: Image, events: seq<Event>, i: nat, n: nat, t: int)
    requires WellFormed(img) && n < |events| && LeftAt(img, events, i, n, t)
    requires t in After(img, events, n + 1).parked
    ensures LeftAt(img, events, i, n + 1, t)
  {
    hide Step;
    AfterNext(img, events, n);
    NotBackYet(img, After(img, events, n), events[n], t);
  }

  /** Every thread that is parked was left by an event of this run. */
  lemma {:induction false} EveryThreadWasLeft(img: Image, events: seq<Event>, n: nat, t: int) returns (i: nat)
    requires WellFormed(img) && n <= |events| && t in After(img, events, n).parked
    ensures LeftAt(img, events, i, n, t)
    decreases n
  {
    hide Step, LeftAt;
    if n == 0 {
      assert false;
    }
    if After(img, events, n - 1).cur == t {
      i := n - 1;
      LeftJustNow(img, events, i, t);
    } else {
      AfterNext(img, events, n - 1);
      NotBackYet(img, After(img, events, n - 1), events[n - 1], t);
      i := EveryThreadWasLeft(img, events, n - 1, t);
      StillAway(img, events, i, n - 1, t);
    }
  }

  lemma OnlyTicksResume(img: Image, s: Sys, e: Event)
    requires WellFormed(img) && Valid(img, s) && Step(img, s, e).0.cur in s.parked
    ensures var t := Step(img, s, e).0.cur;
            && e.Tick? && Step(img, s, e).1 == Switched(s.parked[t]) && t == CyclicNext(s.cur, s.stacks.Keys)
            && t in s.stacks && Step(img, s, e).0.stacks == s.stacks
  {
  }

  /** In any run, a parked thread gets the processor back by a timer tick and by
      nothing else. It then resumes the frame saved by the last event that took
      the processor from it, and finds its programs as it left them. */
  lemma ThreadGoesBackToWhereItLeft(img: Image, events: seq<Event>, e: Event) returns (i: nat)
    requires WellFormed(img)
    requires var s := After(img, events, |events|); Step(img, s, e).0.cur in s.parked
    ensures e.Tick? && i < |events| && (events[i].Tick? || events[i].SelectTerminal?)
    ensures var s0 := After(img, events, i);
            var (s', outcome) := Step(img, After(img, events, |events|), e);
            && outcome == Switched(events[i].frame)
            && s'.cur == s0.cur && s'.stacks[s'.cur] == s0.stacks[s'.cur]
            && (forall j :: i < j <= |events| ==> After(img, events, j).cur != s0.cur)
  {
    var s := After(img, events, |events|);
    OnlyTicksResume(img, s, e);
    i := EveryThreadWasLeft(img, events, |events|, Step(img, s, e).0.cur);
  }

  /** Every switch is such a return. */
  lemma SwitchesAreReturns(img: Image, events: seq<Event>, frame: Token)
    requires WellFormed(img) && Step(img, After(img, events, |events|), Tick(frame)).1.Switched?
    ensures var s := After(img, events, |events|); Step(img, s, Tick(frame)).0.cur in s.parked
  {
  }
}
