/** What a yield, a timer interrupt and a join come to, in every interleaving and for a CPU left
    alone. */
module SchedulerTurns {
  import opened Scheduler

  // ---------------------------------------------------------------- every turn switches

  /** In scheduler_yield or in the timer path. */
  predicate Busy(pc: Pc) {
    !Joining(pc) && pc != Thread && pc != Halted
  }

  /** Not yet past pull_next_runnable_thread. */
  predicate Asking(pc: Pc) {
    pc in {YRead, YFlag, YSpin, YWait, YPull, AEnter, ASpin, AWait, APull}
  }

  /** The lock is released and the way back to a thread not yet made. */
  predicate Leaving(pc: Pc) {
    pc in {YSti, AIret}
  }

  /** What becomes of the ready list `was` and the outgoing thread `out` in one turn. */
  predicate Turned(was: seq<Tid>, out: Tid, ready: seq<Tid>, current: Tid) {
    if was == [] then ready == [] && current == out
    else current == was[0] && ready == was[1..] + [out]
  }

  /** A CPU between the pull and the release, when the pull found the list `was`. */
  predicate Stage(p: Cpu, ready: seq<Tid>, was: seq<Tid>, out: Tid) {
    match p.pc
    case YSet => was != [] && p.to == was[0] && p.current == out && ready == was[1..]
    case ASet => was != [] && p.to == was[0] && p.current == out && ready == was[1..]
    case YQueue => was != [] && p.current == was[0] && p.from == out && ready == was[1..]
    case YPush => was != [] && p.current == was[0] && p.from == out && ready == was[1..]
    case APush => was != [] && p.current == was[0] && p.from == out && ready == was[1..]
    case YLeave => Turned(was, out, ready, p.current)
    case ALeave => Turned(was, out, ready, p.current)
    case YUnlock => Turned(was, out, ready, p.current)
    case AUnlock => Turned(was, out, ready, p.current)
    case _ => false
  }

  lemma AskingGoes(s: State, n: nat, c: nat)
    requires Inv(s, n) && c < |s.cpus| && Asking(s.cpus[c].pc) && s.cpus[c].pc !in {YPull, APull} && !Trapped(s.cpus[c])
    ensures var p, q := s.cpus[c], Go(s, c).cpus[c];
            |Go(s, c).cpus| == |s.cpus| && Asking(q.pc) && q.current == p.current && !Trapped(q)
  {
    if s.cpus[c].pc == YRead { HeldRunning(s, n, c, s.cpus[c].current); }
  }

  lemma PullGoes(s: State, n: nat, c: nat)
    requires Inv(s, n) && c < |s.cpus| && s.cpus[c].pc in {YPull, APull}
    ensures var t := Go(s, c);
            |t.cpus| == |s.cpus| && Stage(t.cpus[c], t.ready, s.ready, s.cpus[c].current)
  {
    ChecksAlwaysPass(s, n, c);
  }

  lemma SwitchStage(s: State, n: nat, c: nat, was: seq<Tid>, out: Tid)
    requires Inv(s, n) && c < |s.cpus| && Stage(s.cpus[c], s.ready, was, out) && s.cpus[c].pc in {YSet, YQueue, YPush}
    ensures var t := Go(s, c);
            |t.cpus| == |s.cpus| && Stage(t.cpus[c], t.ready, was, out)
  {
    ChecksAlwaysPass(s, n, c);
  }

  lemma TimerStage(s: State, n: nat, c: nat, was: seq<Tid>, out: Tid)
    requires Inv(s, n) && c < |s.cpus| && Stage(s.cpus[c], s.ready, was, out) && s.cpus[c].pc in {ASet, APush}
    ensures var t := Go(s, c);
            |t.cpus| == |s.cpus| && Stage(t.cpus[c], t.ready, was, out)
  {
  }

  lemma StageGoes(s: State, n: nat, c: nat, was: seq<Tid>, out: Tid)
    requires Inv(s, n) && c < |s.cpus| && Stage(s.cpus[c], s.ready, was, out) && s.cpus[c].pc !in {YUnlock, AUnlock}
    ensures var t := Go(s, c);
            |t.cpus| == |s.cpus| && Stage(t.cpus[c], t.ready, was, out)
  {
    match s.cpus[c].pc
    case YSet | YQueue | YPush => SwitchStage(s, n, c, was, out);
    case ASet | APush => TimerStage(s, n, c, was, out);
    case _ =>
  }

  lemma UnlockGoes(s: State, c: nat)
    requires c < |s.cpus| && s.cpus[c].pc in {YUnlock, AUnlock}
    ensures var p, q := s.cpus[c], Go(s, c).cpus[c];
            |Go(s, c).cpus| == |s.cpus| && Leaving(q.pc) && q.current == p.current
  {
  }

  lemma LeavingGoes(s: State, c: nat)
    requires c < |s.cpus| && Leaving(s.cpus[c].pc) && CpuOk(s.cpus[c])
    ensures var p, q := s.cpus[c], Go(s, c).cpus[c];
            |Go(s, c).cpus| == |s.cpus| && q.pc in {Thread, JSti} && q.intOn && q.current == p.current
  {
  }

  /** Step `i` takes CPU `c` into the scheduler: its thread yields, or its timer fires outside a join. */
  ghost predicate Enters(tr: seq<State>, acts: seq<Act>, c: nat, i: nat)
    requires i < |acts| && |tr| == |acts| + 1
  {
    && c < |tr[i].cpus|
    && ((acts[i] == Act(c, Advance) && tr[i].cpus[c].pc == Thread) ||
        (acts[i] == Act(c, Timer) && tr[i].cpus[c].pc in {Thread, JSti}))
  }

  /** Step `m` is CPU `c` asking the ready list for a thread. */
  ghost predicate Asks(tr: seq<State>, acts: seq<Act>, c: nat, m: nat)
    requires m < |acts| && |tr| == |acts| + 1
  {
    acts[m] == Act(c, Advance) && c < |tr[m].cpus| && tr[m].cpus[c].pc in {YPull, APull}
  }

  /** Step `u` is CPU `c` releasing the lock. */
  ghost predicate Releases(tr: seq<State>, acts: seq<Act>, c: nat, u: nat)
    requires u < |acts| && |tr| == |acts| + 1
  {
    acts[u] == Act(c, Advance) && c < |tr[u].cpus| && tr[u].cpus[c].pc in {YUnlock, AUnlock}
  }

  ghost predicate NoneAsked(tr: seq<State>, acts: seq<Act>, c: nat, i: nat, k: nat)
    requires k <= |acts| && |tr| == |acts| + 1
  {
    forall m {:trigger Asks(tr, acts, c, m)} :: i < m < k ==> !Asks(tr, acts, c, m)
  }

  /** Between steps `i` and `k` CPU `c` asked once, at `a`. */
  ghost predicate AskedOnce(tr: seq<State>, acts: seq<Act>, c: nat, i: nat, k: nat, a: nat)
    requires k <= |acts| && |tr| == |acts| + 1
  {
    i < a < k && Asks(tr, acts, c, a) && NoneAsked(tr, acts, c, i, a) && NoneAsked(tr, acts, c, a, k)
  }

  /** How far a turn that began at step `i` has come before step `k`, when it asked at step `a` and
      released the lock at step `u`. */
  ghost predicate Phase(tr: seq<State>, acts: seq<Act>, c: nat, i: nat, k: nat, a: nat, u: nat)
    requires i < k <= |acts| && |tr| == |acts| + 1 && c < |tr[i].cpus| && c < |tr[k].cpus|
  {
    var out, p := tr[i].cpus[c].current, tr[k].cpus[c];
    if Asking(p.pc) then p.current == out && !Trapped(p) && NoneAsked(tr, acts, c, i, k)
    else
      && AskedOnce(tr, acts, c, i, k, a)
      && (Stage(p, tr[k].ready, tr[a].ready, out)
          || (&& (Leaving(p.pc) || (p.pc in {Thread, JSti} && p.intOn))
              && a < u < k && Releases(tr, acts, c, u) && Turned(tr[a].ready, out, tr[u].ready, p.current)))
  }

  /** While a CPU holds the lock no other changes the ready list. */
  lemma OthersKeepReady(s: State, n: nat, a: Act, c: nat)
    requires Inv(s, n) && Enabled(s, a) && c < |s.cpus| && a.cpu != c && Holds(s.cpus[c])
    ensures Do(s, a).ready == s.ready
  {
    OnlyHolderSwitches(s, n, c, a.cpu);
  }

  /** A step of another CPU. */
  lemma PhaseOther(tr: seq<State>, acts: seq<Act>, n: nat, c: nat, i: nat, j: nat, k: nat, a: nat, u: nat)
    requires i < j < |acts| && k == j + 1 && |tr| == |acts| + 1 && StepAt(tr, acts, j) && Inv(tr[j], n)
    requires c < |tr[i].cpus| && c < |tr[j].cpus| && acts[j].cpu != c && Phase(tr, acts, c, i, j, a, u)
    ensures c < |tr[k].cpus| && Phase(tr, acts, c, i, k, a, u)
  {
    OthersUnchanged(tr[j], acts[j]);
    assert !Asks(tr, acts, c, j);
    var p := tr[j].cpus[c];
    if !Asking(p.pc) && Stage(p, tr[j].ready, tr[a].ready, tr[i].cpus[c].current) {
      OthersKeepReady(tr[j], n, acts[j], c);
    }
  }

  /** A step of the CPU itself, while it is busy. */
  lemma PhaseOwn(tr: seq<State>, acts: seq<Act>, n: nat, c: nat, i: nat, j: nat, k: nat, a: nat, u: nat)
    returns (a': nat, u': nat)
    requires i < j < |acts| && k == j + 1 && |tr| == |acts| + 1 && StepAt(tr, acts, j) && Inv(tr[j], n)
    requires c < |tr[i].cpus| && c < |tr[j].cpus| && acts[j].cpu == c && Busy(tr[j].cpus[c].pc)
    requires Phase(tr, acts, c, i, j, a, u)
    ensures c < |tr[k].cpus| && Phase(tr, acts, c, i, k, a', u')
  {
    a', u' := a, u;
    if Asking(tr[j].cpus[c].pc) {
      a' := PhaseAsking(tr, acts, n, c, i, j, k, a, u);
    } else {
      u' := PhaseAsked(tr, acts, n, c, i, j, k, a, u);
    }
  }

  lemma PhaseAsking(tr: seq<State>, acts: seq<Act>, n: nat, c: nat, i: nat, j: nat, k: nat, a: nat, u: nat)
    returns (a': nat)
    requires i < j < |acts| && k == j + 1 && |tr| == |acts| + 1 && StepAt(tr, acts, j) && Inv(tr[j], n)
    requires c < |tr[i].cpus| && c < |tr[j].cpus| && acts[j].cpu == c && Asking(tr[j].cpus[c].pc)
    requires Phase(tr, acts, c, i, j, a, u)
    ensures c < |tr[k].cpus| && Phase(tr, acts, c, i, k, a', u)
  {
    assert acts[j] == Act(c, Advance);
    a' := a;
    if tr[j].cpus[c].pc in {YPull, APull} {
      assert Asks(tr, acts, c, j);
      PullGoes(tr[j], n, c);
      a' := j;
    } else {
      assert !Asks(tr, acts, c, j);
      AskingGoes(tr[j], n, c);
    }
  }

  lemma PhaseAsked(tr: seq<State>, acts: seq<Act>, n: nat, c: nat, i: nat, j: nat, k: nat, a: nat, u: nat)
    returns (u': nat)
    requires i < j < |acts| && k == j + 1 && |tr| == |acts| + 1 && StepAt(tr, acts, j) && Inv(tr[j], n)
    requires c < |tr[i].cpus| && c < |tr[j].cpus| && acts[j].cpu == c
    requires Busy(tr[j].cpus[c].pc) && !Asking(tr[j].cpus[c].pc) && Phase(tr, acts, c, i, j, a, u)
    ensures c < |tr[k].cpus| && Phase(tr, acts, c, i, k, a, u')
  {
    var s, pc := tr[j], tr[j].cpus[c].pc;
    assert acts[j] == Act(c, Advance) && !Asks(tr, acts, c, j);
    u' := u;
    if pc in {YUnlock, AUnlock} {
      UnlockGoes(s, c);
      u' := j;
    } else if Leaving(pc) {
      LeavingGoes(s, c);
    } else {
      PhaseStaged(tr, acts, n, c, i, j, k, a, u);
    }
  }

  lemma PhaseStaged(tr: seq<State>, acts: seq<Act>, n: nat, c: nat, i: nat, j: nat, k: nat, a: nat, u: nat)
    requires i < j < |acts| && k == j + 1 && |tr| == |acts| + 1 && StepAt(tr, acts, j) && Inv(tr[j], n)
    requires c < |tr[i].cpus| && c < |tr[j].cpus| && acts[j] == Act(c, Advance) && AskedOnce(tr, acts, c, i, j, a)
    requires Stage(tr[j].cpus[c], tr[j].ready, tr[a].ready, tr[i].cpus[c].current)
    requires tr[j].cpus[c].pc !in {YUnlock, AUnlock}
    ensures c < |tr[k].cpus| && Phase(tr, acts, c, i, k, a, u)
  {
    assert !Asks(tr, acts, c, j);
    StageGoes(tr[j], n, c, tr[a].ready, tr[i].cpus[c].current);
  }

  ghost predicate BusyAt(tr: seq<State>, c: nat, m: nat)
    requires m < |tr|
  {
    c < |tr[m].cpus| && Busy(tr[m].cpus[c].pc)
  }

  /** From step `i` to step `k` CPU `c` is in one turn. */
  ghost predicate InTurn(tr: seq<State>, acts: seq<Act>, c: nat, i: nat, k: nat)
    requires |tr| == |acts| + 1
  {
    i < k <= |acts| && Enters(tr, acts, c, i) && forall m {:trigger BusyAt(tr, c, m)} :: i < m < k ==> BusyAt(tr, c, m)
  }

  lemma {:induction false} TurnGoesOn(tr: seq<State>, acts: seq<Act>, n: nat, c: nat, i: nat, k: nat)
    returns (a: nat, u: nat)
    requires IsRun(tr, acts) && Inv(tr[0], n) && InTurn(tr, acts, c, i, k)
    ensures c < |tr[k].cpus| && Phase(tr, acts, c, i, k, a, u)
    decreases k
  {
    assert StepAt(tr, acts, k - 1);
    if k == i + 1 {
      a, u := 0, 0;
      PhaseFirst(tr, acts, c, i, k);
    } else {
      assert BusyAt(tr, c, k - 1);
      var b, v := TurnGoesOn(tr, acts, n, c, i, k - 1);
      RunKeepsInv(tr, acts, n, k - 1);
      a, u := PhaseStep(tr, acts, n, c, i, k - 1, k, b, v);
    }
  }

  lemma PhaseFirst(tr: seq<State>, acts: seq<Act>, c: nat, i: nat, k: nat)
    requires i < |acts| && k == i + 1 && |tr| == |acts| + 1 && StepAt(tr, acts, i) && Enters(tr, acts, c, i)
    ensures c < |tr[k].cpus| && Phase(tr, acts, c, i, k, 0, 0)
  {
  }

  lemma PhaseStep(tr: seq<State>, acts: seq<Act>, n: nat, c: nat, i: nat, j: nat, k: nat, a: nat, u: nat)
    returns (a': nat, u': nat)
    requires i < j < |acts| && k == j + 1 && |tr| == |acts| + 1 && StepAt(tr, acts, j) && Inv(tr[j], n)
    requires c < |tr[i].cpus| && c < |tr[j].cpus| && Busy(tr[j].cpus[c].pc) && Phase(tr, acts, c, i, j, a, u)
    ensures c < |tr[k].cpus| && Phase(tr, acts, c, i, k, a', u')
  {
    a', u' := a, u;
    if acts[j].cpu == c {
      a', u' := PhaseOwn(tr, acts, n, c, i, j, k, a, u);
    } else {
      PhaseOther(tr, acts, n, c, i, j, k, a, u);
    }
  }

  /** In every interleaving, a yield or timer interrupt that has come back to a thread, at step `k`, asked
      the ready list exactly once and later released the lock. If the list was empty the thread goes on;
      otherwise the head of the list runs, and at the release the list is the rest of it with the old
      thread at the back. Interrupts are on. */
  lemma EachTurnSwitches(tr: seq<State>, acts: seq<Act>, n: nat, c: nat, i: nat, k: nat) returns (a: nat, u: nat)
    requires IsRun(tr, acts) && Inv(tr[0], n) && InTurn(tr, acts, c, i, k)
    requires c < |tr[k].cpus| && !Busy(tr[k].cpus[c].pc)
    ensures AskedOnce(tr, acts, c, i, k, a) && a < u < k && Releases(tr, acts, c, u)
    ensures Turned(tr[a].ready, tr[i].cpus[c].current, tr[u].ready, tr[k].cpus[c].current)
    ensures tr[k].cpus[c].pc in {Thread, JSti} && tr[k].cpus[c].intOn
  {
    a, u := TurnGoesOn(tr, acts, n, c, i, k);
    RunKeepsInv(tr, acts, n, k);
  }

  // ---------------------------------------------------------------- a CPU left alone

  /** CPU `c` does `first` and then only goes on with what it is doing, without coming to a thread. */
  ghost predicate GoesOn(tr: seq<State>, acts: seq<Act>, c: nat, first: Event)
    requires |tr| == |acts| + 1
  {
    && acts != [] && acts[0] == Act(c, first)
    && forall k :: 0 < k < |acts| ==>
         && acts[k].cpu == c && (acts[k].event == Advance || acts[k].event.Create?)
         && c < |tr[k].cpus| && tr[k].cpus[c].pc != Thread
  }

  /** So, and with no step of another, it gets from `s` to `t`. */
  ghost predicate Alone(s: State, c: nat, first: Event, t: State) {
    exists tr, acts :: IsRun(tr, acts) && tr[0] == s && tr[|acts|] == t && GoesOn(tr, acts, c, first)
  }

  lemma AloneFirst(s: State, c: nat, first: Event, t: State)
    requires Enabled(s, Act(c, first)) && Do(s, Act(c, first)) == t
    ensures Alone(s, c, first, t)
  {
    var tr, acts := [s, t], [Act(c, first)];
    assert StepAt(tr, acts, 0);
    assert IsRun(tr, acts) && GoesOn(tr, acts, c, first);
  }

  lemma AloneStep(s: State, c: nat, first: Event, t: State, a: Act)
    requires Alone(s, c, first, t) && a.cpu == c && Enabled(t, a) && (a.event == Advance || a.event.Create?)
    requires t.cpus[c].pc != Thread
    ensures Alone(s, c, first, Do(t, a))
  {
    var tr, acts :| IsRun(tr, acts) && tr[0] == s && tr[|acts|] == t && GoesOn(tr, acts, c, first);
    var tr', acts' := tr + [Do(t, a)], acts + [a];
    forall i | 0 <= i < |acts'| ensures StepAt(tr', acts', i) {
      if i < |acts| { assert StepAt(tr, acts, i); }
    }
    assert IsRun(tr', acts') && GoesOn(tr', acts', c, first);
  }

  /** The next step of the CPU leads to `r`. */
  lemma AloneGo(s: State, c: nat, first: Event, t: State, r: State)
    requires Alone(s, c, first, t) && c < |t.cpus| && t.cpus[c].pc !in {Thread, JCreate, Halted} && Go(t, c) == r
    ensures Alone(s, c, first, r)
  {
    AloneStep(s, c, first, t, Act(c, Advance));
  }

  /** scheduler_yield up to the pull. */
  lemma YieldLocks(s: State, n: nat, c: nat) returns (t: State)
    requires Inv(s, n) && c < |s.cpus| && s.cpus[c].pc == Thread && !s.lock
    ensures Alone(s, c, Advance, t)
    ensures var p := s.cpus[c];
            t == WithCpu(s, c, p.(pc := YPull, intOn := false, inSched := true, from := p.current)).(lock := true)
  {
    var p := s.cpus[c];
    HeldRunning(s, n, c, p.current);
    assert s.tibs[p.current := s.tibs[p.current].(running := true)] == s.tibs;
    var p1 := p.(pc := YRead, intOn := false);
    var p2 := p1.(pc := YFlag, from := p.current);
    var p3 := p2.(pc := YSpin, inSched := true);
    AloneFirst(s, c, Advance, WithCpu(s, c, p1));
    AloneGo(s, c, Advance, WithCpu(s, c, p1), WithCpu(s, c, p2));
    AloneGo(s, c, Advance, WithCpu(s, c, p2), WithCpu(s, c, p3));
    t := WithCpu(s, c, p3.(pc := YPull)).(lock := true);
    AloneGo(s, c, Advance, WithCpu(s, c, p3), t);
  }

  /** A state in which the lock is taken, the list is not empty, and the checks of the switch pass. */
  ghost predicate MaySwitch(s: State, c: nat) {
    && c < |s.cpus| && s.ready != [] && s.ready[0] != s.cpus[c].current
    && s.ready[0] in s.tibs && s.tibs[s.ready[0]] == Tib(false, false)
    && s.cpus[c].current in s.tibs && s.tibs[s.cpus[c].current] == Tib(true, true)
  }

  lemma InvMaySwitch(s: State, n: nat, c: nat)
    requires Inv(s, n) && c < |s.cpus| && s.cpus[c].pc in {Thread, JSti} && s.ready != []
    ensures MaySwitch(s, c)
  {
    HeldRunning(s, n, c, s.cpus[c].current);
    assert s.ready[0] in s.ready;
  }

  /** Thread states once the head of the list runs and `out` is queued. */
  ghost function Swapped(tibs: map<Tid, Tib>, head: Tid, out: Tid): map<Tid, Tib> {
    tibs[head := Tib(true, true)][out := Tib(false, false)]
  }

  /** scheduler_yield from the pull on, when there is a thread. */
  lemma YieldRotates(s0: State, s: State, c: nat) returns (t: State)
    requires Alone(s0, c, Advance, s) && MaySwitch(s, c) && s.cpus[c].pc == YPull && s.cpus[c].from == s.cpus[c].current
    ensures Alone(s0, c, Advance, t)
    ensures var p, head := s.cpus[c], s.ready[0];
            var q := p.(pc := ResumeAt(s, head), intOn := true, inSched := false, current := head, to := head);
            t == State(false, s.ready[1..] + [p.current], Swapped(s.tibs, head, p.current),
                       s.late - {head}, s.cpus[c := q])
  {
    var p, head := s.cpus[c], s.ready[0];
    var p1 := p.(pc := YSet, to := head);
    var s1 := WithCpu(s, c, p1).(ready := s.ready[1..], tibs := s.tibs[head := Tib(true, true)]);
    AloneGo(s0, c, Advance, s, s1);
    var p2 := p1.(pc := YQueue, current := head);
    var s2 := WithCpu(s1, c, p2);
    AloneGo(s0, c, Advance, s1, s2);
    var p3 := p2.(pc := YPush, inSched := false);
    var s3 := WithCpu(s2, c, p3);
    AloneGo(s0, c, Advance, s2, s3);
    t := YieldQueues(s0, s3, c);
  }

  lemma YieldQueues(s0: State, s: State, c: nat) returns (t: State)
    requires Alone(s0, c, Advance, s) && c < |s.cpus| && s.cpus[c].pc == YPush
    ensures Alone(s0, c, Advance, t)
    ensures var p := s.cpus[c];
            var q := p.(pc := ResumeAt(s, p.current), intOn := true);
            t == State(false, s.ready + [p.from], s.tibs[p.from := Tib(false, false)],
                       s.late - {p.current}, s.cpus[c := q])
  {
    var p := s.cpus[c];
    var s1 := WithCpu(s, c, p.(pc := YUnlock))
              .(ready := s.ready + [p.from], tibs := s.tibs[p.from := Tib(false, false)]);
    AloneGo(s0, c, Advance, s, s1);
    t := YieldReturns(s0, s1, c);
  }

  lemma YieldReturns(s0: State, s: State, c: nat) returns (t: State)
    requires Alone(s0, c, Advance, s) && c < |s.cpus| && s.cpus[c].pc == YUnlock
    ensures Alone(s0, c, Advance, t)
    ensures var p := s.cpus[c];
            var q := p.(pc := ResumeAt(s, p.current), intOn := true);
            t == State(false, s.ready, s.tibs, s.late - {p.current}, s.cpus[c := q])
  {
    var p := s.cpus[c];
    var s1 := WithCpu(s, c, p.(pc := YSti)).(lock := false);
    AloneGo(s0, c, Advance, s, s1);
    t := Go(s1, c);
    AloneGo(s0, c, Advance, s1, t);
  }

  /** What a CPU left alone leaves behind when it enters the scheduler in state `s`: outside the scheduler
      again, the lock free, interrupts on; the head of the list, if there is one, runs in place of the
      current thread, which is last in the list. No other CPU and no other thread is touched. */
  ghost predicate Switched(s: State, t: State, c: nat)
    requires c < |s.cpus|
  {
    && |t.cpus| == |s.cpus| && t.cpus == s.cpus[c := t.cpus[c]]
    && Turned(s.ready, s.cpus[c].current, t.ready, t.cpus[c].current)
    && !t.lock && t.cpus[c].pc in {Thread, JSti} && t.cpus[c].intOn && !t.cpus[c].inSched
    && t.tibs == (if s.ready == [] then s.tibs else Swapped(s.tibs, s.ready[0], s.cpus[c].current))
  }

  /** scheduler_yield of a CPU left alone. */
  lemma YieldAlone(s: State, n: nat, c: nat) returns (t: State)
    requires Inv(s, n) && c < |s.cpus| && s.cpus[c].pc == Thread && !s.lock
    ensures Alone(s, c, Advance, t) && Switched(s, t, c)
  {
    var u := YieldLocks(s, n, c);
    if s.ready == [] {
      var v := WithCpu(u, c, u.cpus[c].(pc := YLeave));
      AloneGo(s, c, Advance, u, v);
      var w := WithCpu(u, c, u.cpus[c].(pc := YUnlock, inSched := false));
      AloneGo(s, c, Advance, v, w);
      t := YieldReturns(s, w, c);
    } else {
      InvMaySwitch(s, n, c);
      t := YieldRotates(s, u, c);
    }
  }

  /** The timer path up to the pull. */
  lemma TimerLocks(s: State, n: nat, c: nat) returns (t: State)
    requires Inv(s, n) && c < |s.cpus| && s.cpus[c].pc in {Thread, JSti} && s.cpus[c].intOn && !s.lock
    ensures Alone(s, c, Timer, t)
    ensures var p := s.cpus[c];
            t == WithCpu(s, c, p.(pc := APull, resume := p.pc, intOn := false)).(lock := true)
  {
    var p := s.cpus[c];
    var p1 := p.(pc := AEnter, resume := p.pc, intOn := false);
    AloneFirst(s, c, Timer, WithCpu(s, c, p1));
    AloneGo(s, c, Timer, WithCpu(s, c, p1), WithCpu(s, c, p1.(pc := ASpin)));
    t := WithCpu(s, c, p1.(pc := APull)).(lock := true);
    AloneGo(s, c, Timer, WithCpu(s, c, p1.(pc := ASpin)), t);
  }

  /** From the pull on, when there is a thread. */
  lemma TimerRotates(s0: State, s: State, c: nat) returns (t: State)
    requires Alone(s0, c, Timer, s) && MaySwitch(s, c) && s.cpus[c].pc == APull && !s.cpus[c].inSched
    ensures Alone(s0, c, Timer, t) && |t.cpus| == |s.cpus| && t.cpus == s.cpus[c := t.cpus[c]]
    ensures var p, head, q := s.cpus[c], s.ready[0], t.cpus[c];
            && q == p.(pc := ResumeAt(s, head), resume := q.pc, intOn := true,
                       current := head, from := p.current, to := head)
            && !t.lock && t.ready == s.ready[1..] + [p.current] && t.tibs == Swapped(s.tibs, head, p.current)
  {
    var p, head := s.cpus[c], s.ready[0];
    var s1 := WithCpu(s, c, p.(pc := ASet, to := head))
              .(ready := s.ready[1..], tibs := s.tibs[head := Tib(true, true)]);
    AloneGo(s0, c, Timer, s, s1);
    SetGoes(s1, c);
    AloneGo(s0, c, Timer, s1, Go(s1, c));
    t := TimerQueues(s0, Go(s1, c), c);
  }

  lemma SetGoes(s: State, c: nat)
    requires c < |s.cpus| && s.cpus[c].pc == ASet
    ensures var p, t := s.cpus[c], Go(s, c);
            var q := p.(pc := APush, resume := ResumeAt(s, p.to), from := p.current, current := p.to);
            t.cpus == s.cpus[c := q] && t.ready == s.ready && t.tibs == s.tibs
  {
  }

  lemma TimerQueues(s0: State, s: State, c: nat) returns (t: State)
    requires Alone(s0, c, Timer, s) && c < |s.cpus| && s.cpus[c].pc == APush && s.cpus[c].from != s.cpus[c].to
    requires s.cpus[c].resume in {Thread, JSti}
    ensures Alone(s0, c, Timer, t)
    ensures var p := s.cpus[c];
            t == WithCpu(s, c, p.(pc := p.resume, intOn := true, inSched := false))
                   .(lock := false, ready := s.ready + [p.from], tibs := s.tibs[p.from := Tib(false, false)])
  {
    var p := s.cpus[c];
    var s1 := WithCpu(s, c, p.(pc := ALeave))
              .(ready := s.ready + [p.from], tibs := s.tibs[p.from := Tib(false, false)]);
    AloneGo(s0, c, Timer, s, s1);
    t := TimerReturns(s0, s1, c);
  }

  lemma TimerReturns(s0: State, s: State, c: nat) returns (t: State)
    requires Alone(s0, c, Timer, s) && c < |s.cpus| && s.cpus[c].pc == ALeave && s.cpus[c].resume in {Thread, JSti}
    ensures Alone(s0, c, Timer, t)
    ensures var p := s.cpus[c];
            t == WithCpu(s, c, p.(pc := p.resume, intOn := true, inSched := false)).(lock := false)
  {
    var p := s.cpus[c];
    var p1 := p.(pc := AUnlock, inSched := false);
    AloneGo(s0, c, Timer, s, WithCpu(s, c, p1));
    var s2 := WithCpu(s, c, p1.(pc := AIret)).(lock := false);
    AloneGo(s0, c, Timer, WithCpu(s, c, p1), s2);
    t := WithCpu(s, c, p1.(pc := p.resume, intOn := true)).(lock := false);
    AloneGo(s0, c, Timer, s2, t);
  }

  /** A timer interrupt of a CPU left alone. */
  lemma TimerAlone(s: State, n: nat, c: nat) returns (t: State)
    requires Inv(s, n) && c < |s.cpus| && s.cpus[c].pc in {Thread, JSti} && s.cpus[c].intOn && !s.lock
    ensures Alone(s, c, Timer, t) && Switched(s, t, c)
  {
    var u := TimerLocks(s, n, c);
    if s.ready == [] {
      var v := WithCpu(u, c, u.cpus[c].(pc := ALeave));
      AloneGo(s, c, Timer, u, v);
      t := TimerReturns(s, v, c);
    } else {
      InvMaySwitch(s, n, c);
      t := TimerRotates(s, u, c);
    }
  }

  /** scheduler_init of a CPU left alone: it runs a thread of its own, with timer and interrupts on, and the
      ready list is as before. */
  lemma JoinAlone(s: State, n: nat, c: nat) returns (t: State, tid: Tid)
    requires Inv(s, n) && c < |s.cpus| && s.cpus[c].pc == Offline && !s.lock
    ensures Alone(s, c, Advance, t) && tid !in s.tibs
    ensures var q := s.cpus[c].(pc := Thread, intOn := true, timerOn := true, current := tid);
            t == s.(tibs := s.tibs[tid := Tib(true, true)], cpus := s.cpus[c := q])
  {
    var p := s.cpus[c];
    tid := FreshTid(s.tibs.Keys);
    var s1 := WithCpu(s, c, p.(pc := JCreate)).(lock := true);
    AloneFirst(s, c, Advance, s1);
    AloneStep(s, c, Advance, s1, Act(c, Create(tid)));
    var s2 := s1.(tibs := s.tibs[tid := Tib(true, true)]);
    var p3 := p.(pc := JTimer, current := tid);
    assert Do(s1, Act(c, Create(tid))) == WithCpu(s2, c, p3);
    var p4 := p3.(pc := JLeave, timerOn := true);
    AloneGo(s, c, Advance, WithCpu(s2, c, p3), WithCpu(s2, c, p4));
    t := JoinReturns(s, WithCpu(s2, c, p4), c);
  }

  lemma JoinReturns(s0: State, s: State, c: nat) returns (t: State)
    requires Alone(s0, c, Advance, s) && c < |s.cpus| && s.cpus[c].pc == JLeave
    ensures Alone(s0, c, Advance, t)
    ensures t == WithCpu(s, c, s.cpus[c].(pc := Thread, inSched := false, intOn := true)).(lock := false)
  {
    var p := s.cpus[c].(pc := JUnlock, inSched := false);
    AloneGo(s0, c, Advance, s, WithCpu(s, c, p));
    var s2 := WithCpu(s, c, p.(pc := JSti)).(lock := false);
    AloneGo(s0, c, Advance, WithCpu(s, c, p), s2);
    t := WithCpu(s, c, p.(pc := Thread, intOn := true)).(lock := false);
    AloneGo(s0, c, Advance, s2, t);
  }

  // ---------------------------------------------------------------- where a thread goes on

  /** Step `i` takes thread `t` off its CPU, which was at `point` of it. */
  ghost predicate SwitchedOut(tr: seq<State>, acts: seq<Act>, i: nat, t: Tid, point: Pc)
    requires i < |acts| && |tr| == |acts| + 1
  {
    var c := acts[i].cpu;
    && acts[i].event == Advance && c < |tr[i].cpus| && tr[i].cpus[c].current == t
    && ((tr[i].cpus[c].pc == YSet && point == Thread) || (tr[i].cpus[c].pc == ASet && tr[i].cpus[c].resume == point))
  }

  /** The step settles where thread `t` goes on. */
  ghost predicate Dispatches(s: State, a: Act, t: Tid) {
    && a.event == Advance && a.cpu < |s.cpus|
    && var p := s.cpus[a.cpu];
       (p.pc == ASet && p.to == t) || (p.pc == YSti && p.current == t)
  }

  /** And that is there. */
  ghost predicate GoesOnAt(s: State, r: State, a: Act, point: Pc) {
    && a.cpu < |s.cpus| == |r.cpus|
    && (if s.cpus[a.cpu].pc == ASet then r.cpus[a.cpu].resume else r.cpus[a.cpu].pc) == point
  }

  /** Thread `t` is on its way through CPU `p`: being queued, or pulled and not yet dispatched. */
  predicate Passing(p: Cpu, t: Tid) {
    || (p.pc in {APush, YQueue, YPush} && p.from == t)
    || (p.pc in {YSet, ASet} && p.to == t)
    || (p.pc in {YQueue, YPush, YUnlock, YSti} && p.current == t)
  }

  /** Thread `t` is off the CPUs. */
  ghost predicate Out(s: State, t: Tid) {
    t in s.ready || exists c :: 0 <= c < |s.cpus| && Passing(s.cpus[c], t)
  }

  /** No thread that runs is marked as interrupted at the end of a join. */
  ghost predicate LateOk(s: State) {
    && (forall t :: t in s.late ==> t in s.tibs)
    && forall c :: 0 <= c < |s.cpus| && Settled(s.cpus[c].pc) ==> s.cpus[c].current !in s.late
  }

  predicate Settled(pc: Pc) {
    pc !in {Offline, JCreate, YQueue, YPush, YUnlock, YSti}
  }

  lemma LateStep(s: State, n: nat, a: Act)
    requires Inv(s, n) && LateOk(s) && Enabled(s, a)
    ensures LateOk(Do(s, a))
  {
    var c, r := a.cpu, Do(s, a);
    OthersUnchanged(s, a);
    TibsGrow(s, a);
    if a.event == Advance { LateGo(s, n, c); }
    forall d | 0 <= d < |r.cpus| && Settled(r.cpus[d].pc) ensures r.cpus[d].current !in r.late {
      if d != c && a.event == Advance && s.cpus[c].pc == ASet {
        assert s.cpus[c].current in Hands(s.cpus)[c] && s.cpus[d].current in Hands(s.cpus)[d];
      }
    }
  }

  lemma TibsGrow(s: State, a: Act)
    requires Enabled(s, a)
    ensures forall t :: t in s.tibs ==> t in Do(s, a).tibs
  {
  }

  /** The late ones after a step of CPU `c`. */
  lemma LateGo(s: State, n: nat, c: nat)
    requires Inv(s, n) && LateOk(s) && c < |s.cpus| && s.cpus[c].pc != JCreate
    ensures var p, r := s.cpus[c], Go(s, c);
            && |r.cpus| == |s.cpus|
            && (r.late == s.late || (p.pc == YSti && r.late == s.late - {p.current})
                || (p.pc == ASet && r.late <= s.late + {p.current}))
            && (Settled(r.cpus[c].pc) ==> r.cpus[c].current !in r.late)
            && (p.pc == ASet ==> p.current in r.tibs)
  {
    if s.cpus[c].pc == ASet { HeldRunning(s, n, c, s.cpus[c].current); }
    if s.cpus[c].pc == YRead { HeldRunning(s, n, c, s.cpus[c].current); }
    ChecksAlwaysPass(s, n, c);
  }

  lemma {:induction false} RunLateOk(tr: seq<State>, acts: seq<Act>, boot: seq<bool>, k: nat)
    requires IsRun(tr, acts) && Initial(tr[0], boot) && k <= |acts|
    ensures LateOk(tr[k])
  {
    if k > 0 {
      RunLateOk(tr, acts, boot, k - 1);
      RunInv(tr, acts, boot, k - 1);
      assert StepAt(tr, acts, k - 1);
      LateStep(tr[k - 1], |tr[0].ready|, acts[k - 1]);
    }
  }

  /** A thread that is off the CPUs stays off, and stays marked or not, until it is dispatched. */
  lemma OutStep(s: State, n: nat, a: Act, t: Tid)
    requires Inv(s, n) && Enabled(s, a) && Out(s, t) && !Dispatches(s, a, t)
    ensures Out(Do(s, a), t) && (t in Do(s, a).late <==> t in s.late)
  {
    var r := Do(s, a);
    OthersUnchanged(s, a);
    if c :| 0 <= c < |s.cpus| && Passing(s.cpus[c], t) {
      PassingHeld(s.cpus[c], t);
      if c == a.cpu { PassingGoes(s, n, a, t); } else { assert Passing(r.cpus[c], t); }
      assert a.event == Advance && s.cpus[a.cpu].pc == ASet ==> s.cpus[a.cpu].current != t by {
        assert t in Hands(s.cpus)[c] && (s.cpus[a.cpu].pc == ASet ==> s.cpus[a.cpu].current in Hands(s.cpus)[a.cpu]);
      }
    } else {
      ListedGoes(s, n, a, t);
      if s.cpus[a.cpu].pc == ASet { HeldRunning(s, n, a.cpu, s.cpus[a.cpu].current); }
    }
    LateChanges(s, a, t);
  }

  lemma PassingHeld(p: Cpu, t: Tid)
    requires Passing(p, t)
    ensures t in Held(p)
  {
  }

  lemma LateChanges(s: State, a: Act, t: Tid)
    requires Enabled(s, a) && !Dispatches(s, a, t)
    requires a.event == Advance && s.cpus[a.cpu].pc == ASet ==> s.cpus[a.cpu].current != t
    ensures t in Do(s, a).late <==> t in s.late
  {
  }

  lemma PassingGoes(s: State, n: nat, a: Act, t: Tid)
    requires Inv(s, n) && Enabled(s, a) && Passing(s.cpus[a.cpu], t) && !Dispatches(s, a, t)
    ensures Out(Do(s, a), t)
  {
    var c, r := a.cpu, Do(s, a);
    assert a.event == Advance;
    ChecksAlwaysPass(s, n, c);
    assert s.cpus[c].pc in {APush, YPush} && s.cpus[c].from == t ==> t in r.ready;
    assert t in r.ready || Passing(r.cpus[c], t);
  }

  lemma ListedGoes(s: State, n: nat, a: Act, t: Tid)
    requires Inv(s, n) && Enabled(s, a) && t in s.ready
    ensures Out(Do(s, a), t)
  {
    var c, r := a.cpu, Do(s, a);
    ChecksAlwaysPass(s, n, c);
    StepIsFifo(s, a);
    if Pulls(s, a) && s.ready[0] == t {
      PullTakesHead(s, n, a);
      assert Passing(r.cpus[c], t);
    } else {
      StillIn(s.ready, r.ready, Pulls(s, a), t);
    }
  }

  lemma StillIn(was: seq<Tid>, ready: seq<Tid>, pull: bool, t: Tid)
    requires t in was && (pull ==> t != was[0]) && (if pull then was[1..] else was) <= ready
    ensures t in ready
  {
    var k :| 0 <= k < |was| && was[k] == t;
    assert ready[if pull then k - 1 else k] == t;
  }

  lemma {:induction false} OutUntil(tr: seq<State>, acts: seq<Act>, n: nat, t: Tid, i: nat, j: nat)
    requires IsRun(tr, acts) && Inv(tr[0], n) && i <= j <= |acts| && Out(tr[i], t)
    requires forall m {:trigger Dispatches(tr[m], acts[m], t)} :: i <= m < j ==> !Dispatches(tr[m], acts[m], t)
    ensures Out(tr[j], t) && (t in tr[j].late <==> t in tr[i].late)
    decreases j
  {
    if i < j {
      OutUntil(tr, acts, n, t, i, j - 1);
      RunKeepsInv(tr, acts, n, j - 1);
      assert StepAt(tr, acts, j - 1);
      OutStep(tr[j - 1], n, acts[j - 1], t);
    }
  }

  /** A thread goes on, on whichever CPU, where it was when it was last taken off one: in its own code
      after a yield or an interrupt there, and before the `sti` of its join if it was interrupted there. */
  lemma ResumesWhereLeft(tr: seq<State>, acts: seq<Act>, boot: seq<bool>, t: Tid, point: Pc, i: nat, j: nat)
    requires IsRun(tr, acts) && Initial(tr[0], boot) && i < j < |acts|
    requires SwitchedOut(tr, acts, i, t, point) && Dispatches(tr[j], acts[j], t)
    requires forall m {:trigger Dispatches(tr[m], acts[m], t)} :: i < m < j ==> !Dispatches(tr[m], acts[m], t)
    ensures GoesOnAt(tr[j], tr[j + 1], acts[j], point)
  {
    var n, c := |tr[0].ready|, acts[i].cpu;
    InitialInv(tr[0], boot);
    RunLateOk(tr, acts, boot, i);
    RunInv(tr, acts, boot, i);
    assert StepAt(tr, acts, i) && StepAt(tr, acts, j);
    OutFirst(tr[i], n, acts[i], t, point);
    OutUntil(tr, acts, n, t, i + 1, j);
    DispatchGoes(tr[j], acts[j], t, point);
  }

  lemma DispatchGoes(s: State, a: Act, t: Tid, point: Pc)
    requires Enabled(s, a) && Dispatches(s, a, t) && point in {Thread, JSti} && (t in s.late <==> point == JSti)
    ensures GoesOnAt(s, Do(s, a), a, point)
  {
  }

  lemma OutFirst(s: State, n: nat, a: Act, t: Tid, point: Pc)
    requires Inv(s, n) && LateOk(s) && Enabled(s, a) && a.event == Advance && s.cpus[a.cpu].current == t
    requires || (s.cpus[a.cpu].pc == YSet && point == Thread)
             || (s.cpus[a.cpu].pc == ASet && s.cpus[a.cpu].resume == point)
    ensures Out(Do(s, a), t) && point in {Thread, JSti} && (t in Do(s, a).late <==> point == JSti)
  {
    assert Passing(Do(s, a).cpus[a.cpu], t);
  }
}
