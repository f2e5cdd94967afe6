/** What holds over whole runs of the process system: calls return like a
    stack, switched-out threads go on where they stopped, and the timer serves
    all booted terminals in turn. */
module CallStackRuns {
  import opened Bytes
  import opened FileSystem
  import opened CallStacks
  import D = Descriptors

  ghost function Run(img: Image, s: Sys, events: seq<Event>): (r: Sys)
    requires WellFormed(img) && Valid(img, s)
    ensures Valid(img, r)
    decreases |events|
  {
    if events == [] then s
    else
      StepKeepsValid(img, s, events[0]);
      Run(img, Step(img, s, events[0]).0, events[1..])
  }

  /** The state after one event. */
  ghost function Next(img: Image, s: Sys, e: Event): (r: Sys)
    requires WellFormed(img) && Valid(img, s)
    ensures Valid(img, r) && r == Step(img, s, e).0
  {
    StepKeepsValid(img, s, e);
    Step(img, s, e).0
  }

  /** What each event of a run leads to. */
  ghost function Outcomes(img: Image, s: Sys, events: seq<Event>): seq<Outcome>
    requires WellFormed(img) && Valid(img, s)
    decreases |events|
  {
    if events == [] then []
    else
      StepKeepsValid(img, s, events[0]);
      [Step(img, s, events[0]).1] + Outcomes(img, Step(img, s, events[0]).0, events[1..])
  }

  /** Runs compose. */
  lemma {:induction false} RunSplits(img: Image, s: Sys, first: seq<Event>, second: seq<Event>)
    requires WellFormed(img) && Valid(img, s)
    ensures Run(img, s, first + second) == Run(img, Run(img, s, first), second)
    ensures Outcomes(img, s, first + second) == Outcomes(img, s, first) + Outcomes(img, Run(img, s, first), second)
    decreases |first|
  {
    hide Step, WellFormed;
    if first == [] {
      assert first + second == second;
    } else {
      StepKeepsValid(img, s, first[0]);
      assert (first + second)[1..] == first[1..] + second;
      RunSplits(img, Step(img, s, first[0]).0, first[1..], second);
    }
  }

  /** One event after a run. */
  lemma RunExtends(img: Image, s: Sys, events: seq<Event>, e: Event)
    requires WellFormed(img) && Valid(img, s)
    ensures var r := Run(img, s, events);
            && Run(img, s, events + [e]) == Step(img, r, e).0
            && Outcomes(img, s, events + [e]) == Outcomes(img, s, events) + [Step(img, r, e).1]
  {
    hide WellFormed, Valid, Step;
    RunSplits(img, s, events, [e]);
    var r := Run(img, s, events);
    StepKeepsValid(img, r, e);
    assert [e][1..] == [];
    assert Run(img, r, [e]) == Run(img, Step(img, r, e).0, []);
    assert Outcomes(img, r, [e]) == [Step(img, r, e).1] + Outcomes(img, Step(img, r, e).0, []);
  }

  // ------------------------------------------------------------------
  // Calls nest
  // ------------------------------------------------------------------

  /** Through the whole run the stack of terminal `t` stays higher than `n`. */
  ghost predicate StaysAbove(img: Image, s: Sys, events: seq<Event>, t: int, n: nat)
    requires WellFormed(img) && Valid(img, s)
    decreases |events|
  {
    && t in s.stacks && |s.stacks[t]| > n
    && (events == [] ||
        (StepKeepsValid(img, s, events[0]); StaysAbove(img, Step(img, s, events[0]).0, events[1..], t, n)))
  }

  /** A step that leaves the stack higher than `n` leaves everything below `n`
      alone, open files included, and process `n` itself in place. */
  lemma StepLeavesCallers(img: Image, s: Sys, e: Event, t: int, n: nat)
    requires WellFormed(img) && Valid(img, s) && t in s.stacks && |s.stacks[t]| > n
    requires t in Step(img, s, e).0.stacks && |Step(img, s, e).0.stacks[t]| > n
    ensures var stack, stack' := s.stacks[t], Step(img, s, e).0.stacks[t];
            stack'[..n] == stack[..n] && stack'[n].pid == stack[n].pid && stack'[n].resume == stack[n].resume
  {
    hide WellFormed, D.TableOk, D.Step;
    assert StackOk(img, s.cur, s.stacks[s.cur]);
  }

  lemma {:induction false} RunLeavesCallers(img: Image, s: Sys, events: seq<Event>, t: int, n: nat)
    requires WellFormed(img) && Valid(img, s) && StaysAbove(img, s, events, t, n)
    ensures var r := Run(img, s, events);
            && t in r.stacks && |r.stacks[t]| > n
            && r.stacks[t][..n] == s.stacks[t][..n]
            && r.stacks[t][n].pid == s.stacks[t][n].pid && r.stacks[t][n].resume == s.stacks[t][n].resume
    decreases |events|
  {
    if events != [] {
      var s' := Step(img, s, events[0]).0;
      StepKeepsValid(img, s, events[0]);
      assert StaysAbove(img, s', events[1..], t, n);
      StepLeavesCallers(img, s, events[0], t, n);
      RunLeavesCallers(img, s', events[1..], t, n);
    }
  }

  /** Whatever happens between the start of a program and its end, its halt
      resumes exactly the frame saved when it was started, with its exit code,
      and leaves its terminal's stack exactly as it was before the call. */
  lemma HaltResumesItsCaller(img: Image, s: Sys, start: Event, events: seq<Event>, status: nat, frame: Token)
    requires WellFormed(img) && Valid(img, s)
    requires start.Execute? && Step(img, s, start).1.Started?
    requires StaysAbove(img, Next(img, s, start), events, s.cur, |s.stacks[s.cur]|)
    requires var s2 := Run(img, Next(img, s, start), events);
             s2.cur == s.cur && |s2.stacks[s.cur]| == |s.stacks[s.cur]| + 1
    ensures var s2 := Run(img, Next(img, s, start), events);
            var (s3, outcome) := Step(img, s2, Halt(status, frame));
            && Running(s2).pid == Step(img, s, start).1.pid
            && outcome.Resumed? && outcome.frame == start.frame
            && (status <= 256 ==> outcome.code == status)
            && (status > 256 ==> outcome.code == status % 256)
            && s3.cur == s.cur && s3.stacks[s.cur] == s.stacks[s.cur]
  {
    hide ExitCode, CyclicNext, WellFormed, D.Step, D.TableOk, Executable, FreePid, StaysAbove, InUse;
    var s1 := Next(img, s, start);
    var n := |s.stacks[s.cur]|;
    RunLeavesCallers(img, s1, events, s.cur, n);
    HaltCode(img, Run(img, s1, events), status, frame);
    assert s1.stacks[s.cur][..n] == s.stacks[s.cur];
  }

  /** A program is started exactly when its file passes the checks and fewer than
      three auxiliary processes exist; otherwise nothing changes. */
  lemma ExecuteOutcome(img: Image, s: Sys, name: seq<byte>, junk: seq<byte>, frame: Token)
    requires WellFormed(img) && Valid(img, s)
    ensures var (s', outcome) := Step(img, s, Execute(name, junk, frame));
            var loadable := Executable(img, CString(name), junk);
            var full := InUse(s, 4) && InUse(s, 5) && InUse(s, 6);
            && (outcome.Started? <==> loadable && !full)
            && (outcome.Started? ==> FIRST_AUX <= outcome.pid <= LAST_AUX && !InUse(s, outcome.pid)
                                     && Running(s') == Proc(outcome.pid, Some(frame), map[0 := D.Stdin, 1 := D.Stdout])
                                     && (forall p :: InUse(s', p) <==> InUse(s, p) || p == outcome.pid))
            && (!outcome.Started? ==> s' == s && outcome == Returned(if loadable then 1 else -1))
  {
    hide Executable, WellFormed;
    var (s', outcome) := Step(img, s, Execute(name, junk, frame));
    if outcome.Started? {
      var n := |s.stacks[s.cur]|;
      assert At(s', s.cur, n, outcome.pid);
      forall p
        ensures InUse(s', p) <==> InUse(s, p) || p == outcome.pid
      {
        if InUse(s, p) {
          var t, k :| At(s, t, k, p);
          assert At(s', t, k, p);
        }
        if InUse(s', p) {
          var t, k :| At(s', t, k, p);
          assert At(s, t, k, p) || p == outcome.pid;
        }
      }
    }
  }

  /** A booted terminal always has its own shell at the bottom of its stack,
      and halting that shell reboots it under the same number, with only the
      terminal open, touching no other terminal. */
  lemma BaseShellReboots(img: Image, s: Sys, status: nat, frame: Token)
    requires WellFormed(img) && Valid(img, s)
    ensures forall t :: t in s.stacks ==> s.stacks[t] != [] && s.stacks[t][0].pid == t
    ensures var (s', outcome) := Step(img, s, Halt(status, frame));
            if |s.stacks[s.cur]| == 1 then
              outcome == Started(s.cur) && Running(s).pid == s.cur
              && Running(s') == Proc(s.cur, None, map[0 := D.Stdin, 1 := D.Stdout])
              && s' == s.(stacks := s'.stacks) && s'.stacks.Keys == s.stacks.Keys
              && (forall t :: t in s.stacks && t != s.cur ==> s'.stacks[t] == s.stacks[t])
            else outcome.Resumed?
  {
    assert forall t :: t in s.stacks ==> StackOk(img, t, s.stacks[t]);
  }

  lemma StepKeepsBooted(img: Image, s: Sys, e: Event)
    requires WellFormed(img) && Valid(img, s)
    ensures s.stacks.Keys <= Step(img, s, e).0.stacks.Keys
    ensures !e.SelectTerminal? ==> Step(img, s, e).0.stacks.Keys == s.stacks.Keys
    ensures !e.SelectTerminal? && !e.Tick? ==> Step(img, s, e).0.cur == s.cur
    ensures e.Tick? ==> Step(img, s, e).0.cur == CyclicNext(s.cur, s.stacks.Keys)
  {
    var stacks' := Step(img, s, e).0.stacks;
    assert s.cur in s.stacks;
    assert forall t :: t in s.stacks ==> t in stacks';
    assert !e.SelectTerminal? ==> forall t :: t in stacks' ==> t in s.stacks;
  }

  /** Booted terminals stay booted, and only selecting a terminal adds one. */
  lemma {:induction false} BootedTerminalsStay(img: Image, s: Sys, events: seq<Event>)
    requires WellFormed(img) && Valid(img, s)
    ensures s.stacks.Keys <= Run(img, s, events).stacks.Keys
    ensures (forall e :: e in events ==> !e.SelectTerminal?) ==> Run(img, s, events).stacks.Keys == s.stacks.Keys
    decreases |events|
  {
    if events != [] {
      StepKeepsValid(img, s, events[0]);
      StepKeepsBooted(img, s, events[0]);
      BootedTerminalsStay(img, Step(img, s, events[0]).0, events[1..]);
    }
  }

  // ------------------------------------------------------------------
  // Threads resume where they were switched out
  // ------------------------------------------------------------------

  /** Through the whole run terminal `t` is not the one running. */
  ghost predicate StaysAway(img: Image, s: Sys, events: seq<Event>, t: int)
    requires WellFormed(img) && Valid(img, s)
    decreases |events|
  {
    && s.cur != t
    && (events == [] ||
        (StepKeepsValid(img, s, events[0]); StaysAway(img, Step(img, s, events[0]).0, events[1..], t)))
  }

  lemma StepLeavesParked(img: Image, s: Sys, e: Event, t: int)
    requires WellFormed(img) && Valid(img, s) && t in s.stacks && s.cur != t
    requires Step(img, s, e).0.cur != t
    ensures var s' := Step(img, s, e).0;
            && t in s.parked && t in s'.parked && s'.parked[t] == s.parked[t]
            && t in s'.stacks && s'.stacks[t] == s.stacks[t]
  {
    hide WellFormed, D.TableOk, Executable, StackOk, Disjoint, CyclicNext, FreePid;
  }

  lemma {:induction false} ParkedThreadUntouched(img: Image, s: Sys, events: seq<Event>, t: int)
    requires WellFormed(img) && Valid(img, s) && t in s.stacks && StaysAway(img, s, events, t)
    ensures var r := Run(img, s, events);
            && r.cur != t && t in r.stacks && r.stacks[t] == s.stacks[t]
            && t in s.parked && t in r.parked && r.parked[t] == s.parked[t]
    decreases |events|
  {
    if events != [] {
      var s' := Step(img, s, events[0]).0;
      StepKeepsValid(img, s, events[0]);
      assert StaysAway(img, s', events[1..], t);
      StepLeavesParked(img, s, events[0], t);
      ParkedThreadUntouched(img, s', events[1..], t);
    }
  }

  /** When the timer comes back to a thread, by whatever way it had been left
      and whatever happened meanwhile, it resumes exactly the frame saved on
      leaving, and the thread's processes are as they were. */
  lemma TickResumesWhereSwitchedOut(img: Image, s: Sys, leave: Event, events: seq<Event>, frame: Token)
    requires WellFormed(img) && Valid(img, s)
    requires leave.Tick? || leave.SelectTerminal?
    requires StaysAway(img, Next(img, s, leave), events, s.cur)
    requires var s2 := Run(img, Next(img, s, leave), events);
             CyclicNext(s2.cur, s2.stacks.Keys) == s.cur
    ensures var s2 := Run(img, Next(img, s, leave), events);
            var (s3, outcome) := Step(img, s2, Tick(frame));
            outcome == Switched(leave.frame) && s3.cur == s.cur && s3.stacks[s.cur] == s.stacks[s.cur]
  {
    hide WellFormed, StackOk, InUse;
    var s1 := Next(img, s, leave);
    assert s1.cur != s.cur;
    ParkedThreadUntouched(img, s1, events, s.cur);
  }

  // ------------------------------------------------------------------
  // The timer is fair
  // ------------------------------------------------------------------

  /** The terminals the timer ticks of a run select, in order. */
  ghost function Selected(img: Image, s: Sys, events: seq<Event>): seq<int>
    requires WellFormed(img) && Valid(img, s)
    decreases |events|
  {
    if events == [] then []
    else
      StepKeepsValid(img, s, events[0]);
      var s' := Step(img, s, events[0]).0;
      (if events[0].Tick? then [s'.cur] else []) + Selected(img, s', events[1..])
  }

  /** The next `n` terminals after `t`, going round the booted ones. */
  function Rotation(t: int, booted: set<int>, n: nat): seq<int>
    decreases n
  {
    if n == 0 then [] else [CyclicNext(t, booted)] + Rotation(CyclicNext(t, booted), booted, n - 1)
  }

  lemma TickMovesOn(img: Image, s: Sys, e: Event)
    requires WellFormed(img) && Valid(img, s) && !e.SelectTerminal?
    ensures var s' := Step(img, s, e).0;
            s'.stacks.Keys == s.stacks.Keys && s'.cur == if e.Tick? then CyclicNext(s.cur, s.stacks.Keys) else s.cur
  {
    hide Valid;
    StepKeepsBooted(img, s, e);
  }

  /** Nothing but booting a terminal disturbs the rotation. */
  lemma {:induction false} TicksRotate(img: Image, s: Sys, events: seq<Event>)
    requires WellFormed(img) && Valid(img, s)
    requires forall e :: e in events ==> !e.SelectTerminal?
    ensures Selected(img, s, events) == Rotation(s.cur, s.stacks.Keys, |Selected(img, s, events)|)
    decreases |events|
  {
    if events != [] {
      var s' := Step(img, s, events[0]).0;
      StepKeepsValid(img, s, events[0]);
      TickMovesOn(img, s, events[0]);
      hide Step, Valid, CyclicNext;
      TicksRotate(img, s', events[1..]);
      var later := Selected(img, s', events[1..]);
      var n := |later|;
      assert events[0].Tick? ==> Selected(img, s, events) == [s'.cur] + later
                                 && Rotation(s.cur, s.stacks.Keys, n + 1) == [s'.cur] + later;
      assert !events[0].Tick? ==> Selected(img, s, events) == later;
    }
  }

  /** From `t` the rotation runs through `round` and ends at `t`. */
  lemma {:induction false} RotationIs(t: int, booted: set<int>, round: seq<int>)
    requires round != [] ==> round[0] == CyclicNext(t, booted)
    requires forall i :: 0 < i < |round| ==> round[i] == CyclicNext(round[i - 1], booted)
    ensures Rotation(t, booted, |round|) == round
    decreases |round|
  {
    if round != [] {
      assert forall i :: 0 <= i < |round[1..]| ==> round[1..][i] == round[i + 1];
      RotationIs(round[0], booted, round[1..]);
      assert round == [round[0]] + round[1..];
    }
  }

  lemma RotationVisitsAll(t: int, booted: set<int>)
    requires booted <= TERMINALS && t in booted
    ensures multiset(Rotation(t, booted, |booted|)) == multiset(booted)
  {
    var round := BootedCases(t, booted);
    RotationIs(t, booted, round);
    OneEach(round, booted);
  }

  lemma OneEach(q: seq<int>, s: set<int>)
    requires forall i, j :: 0 <= i < j < |q| ==> q[i] != q[j]
    requires forall x :: x in q <==> x in s
    ensures multiset(q) == multiset(s)
  {
    forall x
      ensures multiset(q)[x] == multiset(s)[x]
    {
      Occurrences(q, x);
    }
  }

  lemma {:induction false} Occurrences(q: seq<int>, x: int)
    requires forall i, j :: 0 <= i < j < |q| ==> q[i] != q[j]
    ensures multiset(q)[x] == if x in q then 1 else 0
  {
    if q != [] {
      assert q == [q[0]] + q[1..];
      Occurrences(q[1..], x);
    }
  }

  /** Going round at most three terminals. */
  lemma BootedCases(t: int, booted: set<int>) returns (round: seq<int>)
    requires booted <= TERMINALS && t in booted
    ensures |round| == |booted|
    ensures round != [] ==> round[0] == CyclicNext(t, booted)
    ensures forall i :: 0 < i < |round| ==> round[i] == CyclicNext(round[i - 1], booted)
    ensures forall i, j :: 0 <= i < j < |round| ==> round[i] != round[j]
    ensures forall x :: x in round <==> x in booted
  {
    var a, b := Succ(t), Succ(Succ(t));
    if a in booted && b in booted {
      assert booted == {t, a, b};
      round := [a, b, t];
    } else if a in booted {
      assert booted == {t, a};
      round := [a, t];
    } else if b in booted {
      assert booted == {t, b};
      round := [b, t];
    } else {
      assert booted == {t};
      round := [t];
    }
  }

  /** The next terminal is the nearest booted one above, or the lowest booted one
      when there is none above. */
  lemma NextIsNearest(t: int, booted: set<int>)
    requires booted <= {1, 2, 3} && t in booted
    ensures var next := CyclicNext(t, booted);
            && next in booted
            && ((exists u :: u in booted && u > t) ==> next > t && forall u :: t < u < next ==> u !in booted)
            && ((forall u :: u in booted ==> u <= t) ==> forall u :: u in booted ==> next <= u)
  {
    assert forall u :: u in booted ==> u in {1, 2, 3};
  }

  /** As many ticks as there are booted terminals, with anything but a new boot
      in between, select each booted terminal exactly once. */
  lemma TicksAreFair(img: Image, s: Sys, events: seq<Event>)
    requires WellFormed(img) && Valid(img, s)
    requires forall e :: e in events ==> !e.SelectTerminal?
    requires |Selected(img, s, events)| == |s.stacks.Keys|
    ensures multiset(Selected(img, s, events)) == multiset(s.stacks.Keys)
  {
    TicksRotate(img, s, events);
    RotationVisitsAll(s.cur, s.stacks.Keys);
  }
}
