/** kernel/scheduler.c with kernel/lock.c and kernel/thread.c: every interleaving of yields,
    timer interrupts and joins, on any number of CPUs. The order of the steps is that of
    arch/thread_switch.s. */
module Scheduler {
  import opened Counting

  type Tid = nat

  /** Where a CPU stands. J: scheduler_init and thread_enter; Y: scheduler_yield with
      thread_switch_sync; A: the timer path with thread_switch_async. */
  datatype Pc =
    | Offline | JCreate | JTimer | JLeave | JUnlock | JSti
    | Thread
    | YRead | YFlag | YSpin | YWait | YPull | YSet | YQueue | YPush | YLeave | YUnlock | YSti
    | AEnter | ASpin | AWait | APull | ASet | APush | ALeave | AUnlock | AIret
    | Halted

  /** `resume` is the interrupted point; `from` and `to` are the locals of the switch. */
  datatype Cpu = Cpu(pc: Pc, resume: Pc, intOn: bool, timerOn: bool, inSched: bool,
                     current: Tid, from: Tid, to: Tid)

  datatype Tib = Tib(running: bool, active: bool)

  /** `late` are the threads that were interrupted at the very end of a join, after the lock was
      released and before the `sti`: that is where they go on. */
  datatype State = State(lock: bool, ready: seq<Tid>, tibs: map<Tid, Tib>, late: set<Tid>, cpus: seq<Cpu>)

  datatype Event =
    | Advance            // the next step of whatever the CPU is doing; a thread yields
    | Create(tid: Tid)   // thread_create_thread hands out a fresh thread
    | Timer              // the local timer interrupt is taken
    | SetInt(on: bool)   // thread code toggles the interrupt flag

  datatype Act = Act(cpu: nat, event: Event)

  // ---------------------------------------------------------------- steps

  predicate Enabled(s: State, a: Act) {
    && a.cpu < |s.cpus|
    && var p := s.cpus[a.cpu];
       match a.event
       case Advance => p.pc != JCreate && p.pc != Halted
       case Create(t) => p.pc == JCreate && t !in s.tibs
       case Timer => p.intOn && p.timerOn && p.pc != Halted
       case SetInt(_) => p.pc == Thread
  }

  function WithCpu(s: State, c: nat, p: Cpu): (r: State)
    requires c < |s.cpus|
  {
    s.(cpus := s.cpus[c := p])
  }

  /** `atomic_exchange_32(lock, LOCK_BUSY)`: the lock word is busy afterwards either way. */
  function Exchange(s: State, c: nat, got: Pc, retry: Pc): (r: State)
    requires c < |s.cpus|
  {
    WithCpu(s, c, s.cpus[c].(pc := if s.lock then retry else got)).(lock := true)
  }

  /** `pull_next_runnable_thread`. */
  function Pull(s: State, c: nat, none: Pc, next: Pc): (r: State)
    requires c < |s.cpus|
  {
    var p := s.cpus[c];
    if s.ready == [] then WithCpu(s, c, p.(pc := none))
    else
      var t := s.ready[0];
      if t !in s.tibs || s.tibs[t] != Tib(false, false) then WithCpu(s, c, p.(pc := Halted))
      else WithCpu(s, c, p.(pc := next, to := t)).(ready := s.ready[1..], tibs := s.tibs[t := Tib(true, true)])
  }

  /** `scheduler_push_ready_thread(from)`. */
  function Push(s: State, c: nat, next: Pc): (r: State)
    requires c < |s.cpus|
  {
    var p := s.cpus[c];
    WithCpu(s, c, p.(pc := next)).(ready := s.ready + [p.from], tibs := s.tibs[p.from := Tib(false, false)])
  }

  function Unlock(s: State, c: nat, next: Pc): (r: State)
    requires c < |s.cpus|
  {
    WithCpu(s, c, s.cpus[c].(pc := next)).(lock := false)
  }

  function Do(s: State, a: Act): (r: State)
    requires Enabled(s, a)
  {
    var c := a.cpu;
    var p := s.cpus[c];
    match a.event
    case Create(t) =>
      WithCpu(s, c, p.(pc := JTimer, current := t)).(tibs := s.tibs[t := Tib(true, true)])
    case Timer => WithCpu(s, c, p.(pc := AEnter, resume := p.pc, intOn := false))
    case SetInt(on) => WithCpu(s, c, p.(intOn := on))
    case Advance => Go(s, c)
  }

  /** Where a thread that is switched to goes on. */
  function ResumeAt(s: State, t: Tid): Pc {
    if t in s.late then JSti else Thread
  }

  function Go(s: State, c: nat): (r: State)
    requires c < |s.cpus|
  {
    var p := s.cpus[c];
    match p.pc
    case Offline => Exchange(s, c, JCreate, Offline)
    case JTimer => WithCpu(s, c, p.(pc := JLeave, timerOn := true))
    case JLeave => WithCpu(s, c, p.(pc := JUnlock, inSched := false))
    case JUnlock => Unlock(s, c, JSti)
    case JSti => WithCpu(s, c, p.(pc := Thread, intOn := true))
    case Thread => WithCpu(s, c, p.(pc := YRead, intOn := false))
    case YRead =>
      var q := p.(pc := YFlag, from := p.current);
      if p.current in s.tibs
      then WithCpu(s, c, q).(tibs := s.tibs[p.current := s.tibs[p.current].(running := true)])
      else WithCpu(s, c, q.(pc := Halted))
    case YFlag => WithCpu(s, c, p.(pc := YSpin, inSched := true))
    case YSpin => Exchange(s, c, YPull, YWait)
    case YWait => WithCpu(s, c, p.(pc := if s.lock then YWait else YSpin))
    case YPull => Pull(s, c, YLeave, YSet)
    case YSet => WithCpu(s, c, p.(pc := if p.to == p.from then Halted else YQueue, current := p.to))
    case YQueue =>
      var good := p.from in s.tibs && s.tibs[p.from] == Tib(true, true);
      WithCpu(s, c, p.(pc := if good then YPush else Halted, inSched := false))
    case YPush => Push(s, c, YUnlock)
    case YLeave => WithCpu(s, c, p.(pc := YUnlock, inSched := false))
    case YUnlock => Unlock(s, c, YSti)
    case YSti => WithCpu(s, c, p.(pc := ResumeAt(s, p.current), intOn := true)).(late := s.late - {p.current})
    case AEnter => WithCpu(s, c, p.(pc := if p.inSched then AIret else ASpin))
    case ASpin => Exchange(s, c, APull, AWait)
    case AWait => WithCpu(s, c, p.(pc := if s.lock then AWait else ASpin))
    case APull => Pull(s, c, ALeave, ASet)
    case ASet =>
      WithCpu(s, c, p.(pc := APush, resume := ResumeAt(s, p.to), from := p.current, current := p.to))
        .(late := (if p.resume == JSti then s.late + {p.current} else s.late) - {p.to})
    case APush => Push(s, c, if p.from == p.to then Halted else ALeave)
    case ALeave => WithCpu(s, c, p.(pc := AUnlock, inSched := false))
    case AUnlock => Unlock(s, c, AIret)
    case AIret => WithCpu(s, c, p.(pc := p.resume, intOn := true))
    case _ => s
  }

  // ---------------------------------------------------------------- who holds what

  predicate InIrq(pc: Pc) {
    pc in {AEnter, ASpin, AWait, APull, ASet, APush, ALeave, AUnlock, AIret}
  }

  predicate Locked(pc: Pc) {
    pc in {JCreate, JTimer, JLeave, JUnlock, YPull, YSet, YQueue, YPush, YLeave, YUnlock,
           APull, ASet, APush, ALeave, AUnlock}
  }

  /** The CPU is between taking sched_lock and releasing it. */
  predicate Holds(p: Cpu) {
    Locked(p.pc) || (InIrq(p.pc) && Locked(p.resume))
  }

  predicate Joining(pc: Pc) {
    pc in {Offline, JCreate, JTimer, JLeave, JUnlock, JSti}
  }

  /** The threads in this CPU's hands: its current one and, mid-switch, the other one. */
  function Held(p: Cpu): (ts: set<Tid>) {
    if p.pc in {Offline, JCreate} then {}
    else if p.pc in {YSet, ASet} then {p.current, p.to}
    else if p.pc in {YQueue, YPush, APush} then {p.current, p.from}
    else {p.current}
  }

  /** A thread has been pulled and its predecessor not yet queued. */
  predicate Switching(p: Cpu) {
    p.pc in {YSet, ASet, YQueue, YPush, APush}
  }

  // ---------------------------------------------------------------- the invariant

  /** The CPU took the timer interrupt in a join, after the timer was started and before the lock
      was released. */
  predicate Trapped(p: Cpu) {
    InIrq(p.pc) && p.resume in {JLeave, JUnlock}
  }

  /** What holds of one CPU by itself. */
  ghost predicate CpuOk(p: Cpu) {
    && p.pc != Halted
    && (p.intOn ==> p.pc == Thread || Joining(p.pc))
    && (InIrq(p.pc) ==> p.resume in {Thread, JSti} || (Trapped(p) && p.pc in {AEnter, ASpin, AWait}))
    && (p.timerOn <==> p.pc !in {Offline, JCreate, JTimer})
    && (p.inSched <==> p.pc in {YSpin, YWait, YPull, YSet, YQueue, YLeave})
    && (p.pc in {YFlag, YSpin, YWait, YPull, YSet} ==> p.from == p.current)
    && (p.pc in {YSet, ASet} ==> p.to != p.current)
    && (p.pc in {YQueue, YPush, APush} ==> p.to == p.current && p.from != p.current)
  }

  ghost predicate Mutex(s: State) {
    && (forall c, d :: 0 <= c < |s.cpus| && 0 <= d < |s.cpus| && Holds(s.cpus[c]) && Holds(s.cpus[d]) ==> c == d)
    && (s.lock <==> exists c :: 0 <= c < |s.cpus| && Holds(s.cpus[c]))
  }

  ghost predicate Distinct(ts: seq<Tid>) {
    forall i, j :: 0 <= i < j < |ts| ==> ts[i] != ts[j]
  }

  /** What each CPU has in its hands. */
  ghost function Hands(cpus: seq<Cpu>): (hs: seq<set<Tid>>)
    ensures |hs| == |cpus| && forall i :: 0 <= i < |cpus| ==> hs[i] == Held(cpus[i])
  {
    seq(|cpus|, i requires 0 <= i < |cpus| => Held(cpus[i]))
  }

  ghost predicate InSomeHand(t: Tid, hs: seq<set<Tid>>) {
    exists c :: 0 <= c < |hs| && t in hs[c]
  }

  /** Every thread is in exactly one place: the ready list, once, or one CPU's hands. */
  ghost predicate Placed(ready: seq<Tid>, tibs: map<Tid, Tib>, hs: seq<set<Tid>>) {
    && Distinct(ready)
    && (forall t :: t in ready ==> t in tibs && tibs[t] == Tib(false, false))
    && (forall c, t :: 0 <= c < |hs| && t in hs[c] ==> t in tibs && tibs[t] == Tib(true, true))
    && (forall c, d, t :: 0 <= c < |hs| && 0 <= d < |hs| && t in hs[c] && t in hs[d] ==> c == d)
    && (forall t :: t in tibs && t !in ready ==> InSomeHand(t, hs))
  }

  /** `n` threads circulate: they are all in the ready list except while a switch is under way. */
  ghost predicate Sized(s: State, n: nat) {
    && (forall c :: 0 <= c < |s.cpus| && Switching(s.cpus[c]) ==> |s.ready| + 1 == n)
    && ((forall c :: 0 <= c < |s.cpus| ==> !Switching(s.cpus[c])) ==> |s.ready| == n)
  }

  ghost predicate Inv(s: State, n: nat) {
    && (forall c :: 0 <= c < |s.cpus| ==> CpuOk(s.cpus[c]))
    && Mutex(s) && Placed(s.ready, s.tibs, Hands(s.cpus)) && Sized(s, n)
  }

  // ---------------------------------------------------------------- kinds of step

  lemma HandsUpdate(cpus: seq<Cpu>, c: nat, p: Cpu)
    requires c < |cpus|
    ensures Hands(cpus[c := p]) == Hands(cpus)[c := Held(p)]
  {
  }

  lemma HandsSame(cpus: seq<Cpu>, c: nat, p: Cpu)
    requires c < |cpus| && Held(p) == Held(cpus[c])
    ensures Hands(cpus[c := p]) == Hands(cpus)
  {
  }

  lemma MutexKept(s: State, r: State)
    requires |s.cpus| == |r.cpus| && s.lock == r.lock && Mutex(s)
    requires forall c :: 0 <= c < |s.cpus| ==> Holds(s.cpus[c]) == Holds(r.cpus[c])
    ensures Mutex(r)
  {
    if s.lock {
      var c :| 0 <= c < |s.cpus| && Holds(s.cpus[c]);
      assert Holds(r.cpus[c]);
    }
  }

  /** From `p` to `q` the CPU keeps the lock, or its absence, and the threads in its hands. */
  ghost predicate Keeps(p: Cpu, q: Cpu) {
    CpuOk(q) && Holds(q) == Holds(p) && Held(q) == Held(p) && Switching(q) == Switching(p)
  }

  /** From `p` to `q` the CPU takes the lock. */
  ghost predicate Takes(p: Cpu, q: Cpu) {
    CpuOk(q) && !Holds(p) && Holds(q) && Held(q) == Held(p) && !Switching(p) && !Switching(q)
  }

  /** A step that changes only this CPU's record, and nothing it holds. */
  lemma LocalStep(s: State, c: nat, p: Cpu, n: nat)
    requires Inv(s, n) && c < |s.cpus| && Keeps(s.cpus[c], p)
    ensures Inv(WithCpu(s, c, p), n)
  {
    var r := WithCpu(s, c, p);
    HandsSame(s.cpus, c, p);
    MutexKept(s, r);
    assert forall d :: 0 <= d < |s.cpus| ==> Switching(r.cpus[d]) == Switching(s.cpus[d]);
  }

  /** The exchange that finds the lock free. */
  lemma AcquireStep(s: State, c: nat, p: Cpu, n: nat)
    requires Inv(s, n) && c < |s.cpus| && !s.lock && Takes(s.cpus[c], p)
    ensures Inv(WithCpu(s, c, p).(lock := true), n)
  {
    var r := WithCpu(s, c, p).(lock := true);
    HandsSame(s.cpus, c, p);
    assert forall d :: 0 <= d < |s.cpus| ==> !Holds(s.cpus[d]);
    assert Holds(r.cpus[c]);
  }

  /** The store that frees the lock. */
  lemma ReleaseStep(s: State, c: nat, p: Cpu, n: nat)
    requires Inv(s, n) && c < |s.cpus| && CpuOk(p) && Holds(s.cpus[c])
    requires !Holds(p) && Held(p) == Held(s.cpus[c]) && !Switching(p) && !Switching(s.cpus[c])
    ensures Inv(WithCpu(s, c, p).(lock := false), n)
  {
    HandsSame(s.cpus, c, p);
  }

  lemma OnlyHolderSwitches(s: State, n: nat, c: nat, d: nat)
    requires Inv(s, n) && c < |s.cpus| && d < |s.cpus| && Holds(s.cpus[c]) && d != c
    ensures !Switching(s.cpus[d]) && !Holds(s.cpus[d])
  {
  }

  /** The head of the ready list moves into the hands of the lock holder. */
  lemma PullStep(s: State, c: nat, p: Cpu, n: nat)
    requires Inv(s, n) && c < |s.cpus| && CpuOk(p) && s.ready != []
    requires Holds(s.cpus[c]) && Holds(p) && !Switching(s.cpus[c]) && Switching(p)
    requires Held(p) == Held(s.cpus[c]) + {s.ready[0]}
    ensures Inv(WithCpu(s, c, p).(ready := s.ready[1..], tibs := s.tibs[s.ready[0] := Tib(true, true)]), n)
  {
    var r := WithCpu(s, c, p).(ready := s.ready[1..], tibs := s.tibs[s.ready[0] := Tib(true, true)]);
    HandsUpdate(s.cpus, c, p);
    MutexKept(s, r);
    PullPlaced(s.ready, s.tibs, Hands(s.cpus), c);
    forall d | 0 <= d < |s.cpus| ensures !Switching(s.cpus[d]) {
      if d != c { OnlyHolderSwitches(s, n, c, d); }
    }
    assert Switching(r.cpus[c]);
  }

  lemma PullPlaced(ready: seq<Tid>, tibs: map<Tid, Tib>, hs: seq<set<Tid>>, c: nat)
    requires Placed(ready, tibs, hs) && c < |hs| && ready != []
    ensures Placed(ready[1..], tibs[ready[0] := Tib(true, true)], hs[c := hs[c] + {ready[0]}])
  {
    var t := ready[0];
    var hs' := hs[c := hs[c] + {t}];
    assert ready == [t] + ready[1..];
    assert forall x :: x in ready <==> x == t || x in ready[1..];
    assert t in ready;
    assert forall d :: 0 <= d < |hs| ==> t !in hs[d];
    forall x | x in tibs && x !in ready[1..] ensures InSomeHand(x, hs') {
      if x == t {
        assert x in hs'[c];
      } else {
        assert InSomeHand(x, hs);
        var d :| 0 <= d < |hs| && x in hs[d];
        assert x in hs'[d];
      }
    }
  }

  /** The outgoing thread leaves the hands of the lock holder for the back of the list. */
  lemma PushStep(s: State, c: nat, p: Cpu, n: nat, t: Tid)
    requires Inv(s, n) && c < |s.cpus| && CpuOk(p)
    requires Holds(s.cpus[c]) && Holds(p) && Switching(s.cpus[c]) && !Switching(p)
    requires t in Held(s.cpus[c]) && Held(p) == Held(s.cpus[c]) - {t}
    ensures Inv(WithCpu(s, c, p).(ready := s.ready + [t], tibs := s.tibs[t := Tib(false, false)]), n)
  {
    var r := WithCpu(s, c, p).(ready := s.ready + [t], tibs := s.tibs[t := Tib(false, false)]);
    HandsUpdate(s.cpus, c, p);
    MutexKept(s, r);
    PushPlaced(s.ready, s.tibs, Hands(s.cpus), c, t);
    forall d | 0 <= d < |s.cpus| ensures !Switching(r.cpus[d]) {
      if d != c { OnlyHolderSwitches(s, n, c, d); }
    }
  }

  lemma PushPlaced(ready: seq<Tid>, tibs: map<Tid, Tib>, hs: seq<set<Tid>>, c: nat, t: Tid)
    requires Placed(ready, tibs, hs) && c < |hs| && t in hs[c]
    ensures Placed(ready + [t], tibs[t := Tib(false, false)], hs[c := hs[c] - {t}])
  {
    var hs' := hs[c := hs[c] - {t}];
    assert forall x :: x in ready + [t] <==> x == t || x in ready;
    assert t !in ready;
    assert forall d :: 0 <= d < |hs'| ==> t !in hs'[d];
    forall x | x in tibs && x !in ready && x != t ensures InSomeHand(x, hs') {
      assert InSomeHand(x, hs);
      var d :| 0 <= d < |hs| && x in hs[d];
      assert x in hs'[d];
    }
  }

  /** A joining CPU gets a thread of its own. */
  lemma CreateStep(s: State, c: nat, p: Cpu, n: nat, t: Tid)
    requires Inv(s, n) && c < |s.cpus| && CpuOk(p) && t !in s.tibs
    requires Holds(p) == Holds(s.cpus[c]) && Switching(p) == Switching(s.cpus[c])
    requires Held(s.cpus[c]) == {} && Held(p) == {t}
    ensures Inv(WithCpu(s, c, p).(tibs := s.tibs[t := Tib(true, true)]), n)
  {
    var r := WithCpu(s, c, p).(tibs := s.tibs[t := Tib(true, true)]);
    HandsUpdate(s.cpus, c, p);
    MutexKept(s, r);
    CreatePlaced(s.ready, s.tibs, Hands(s.cpus), c, t);
    assert forall d :: 0 <= d < |s.cpus| ==> Switching(r.cpus[d]) == Switching(s.cpus[d]);
  }

  lemma CreatePlaced(ready: seq<Tid>, tibs: map<Tid, Tib>, hs: seq<set<Tid>>, c: nat, t: Tid)
    requires Placed(ready, tibs, hs) && c < |hs| && t !in tibs && hs[c] == {}
    ensures Placed(ready, tibs[t := Tib(true, true)], hs[c := {t}])
  {
    var hs' := hs[c := {t}];
    assert t in hs'[c];
    forall x | x in tibs && x !in ready ensures InSomeHand(x, hs') {
      assert InSomeHand(x, hs);
      var d :| 0 <= d < |hs| && x in hs[d];
      assert x in hs'[d];
    }
  }

  // ---------------------------------------------------------------- every step keeps it

  lemma HeldRunning(s: State, n: nat, c: nat, t: Tid)
    requires Inv(s, n) && c < |s.cpus| && t in Held(s.cpus[c])
    ensures t in s.tibs && s.tibs[t] == Tib(true, true) && t !in s.ready
  {
    assert t in Hands(s.cpus)[c];
  }

  /** The assertions that the next step makes hold. */
  ghost predicate ChecksPass(s: State, p: Cpu) {
    && (p.pc in {YPull, APull} && s.ready != [] ==>
          s.ready[0] in s.tibs && s.tibs[s.ready[0]] == Tib(false, false))
    && (p.pc == YQueue ==> p.from in s.tibs && s.tibs[p.from] == Tib(true, true))
  }

  lemma ChecksAlwaysPass(s: State, n: nat, c: nat)
    requires Inv(s, n) && c < |s.cpus|
    ensures ChecksPass(s, s.cpus[c])
  {
    if s.ready != [] { assert s.ready[0] in s.ready; }
    if s.cpus[c].pc == YQueue { HeldRunning(s, n, c, s.cpus[c].from); }
  }

  lemma ExchangeInv(s: State, c: nat, got: Pc, retry: Pc, n: nat)
    requires Inv(s, n) && c < |s.cpus|
    requires !Holds(s.cpus[c]) ==> Takes(s.cpus[c], s.cpus[c].(pc := got))
    requires Keeps(s.cpus[c], s.cpus[c].(pc := retry))
    ensures Inv(Exchange(s, c, got, retry), n)
  {
    var p := s.cpus[c];
    if s.lock {
      LocalStep(s, c, p.(pc := retry), n);
      assert Exchange(s, c, got, retry) == WithCpu(s, c, p.(pc := retry));
    } else {
      AcquireStep(s, c, p.(pc := got), n);
    }
  }

  lemma PullInv(s: State, c: nat, none: Pc, next: Pc, n: nat)
    requires Inv(s, n) && c < |s.cpus|
    requires (s.cpus[c].pc == YPull && none == YLeave && next == YSet) ||
             (s.cpus[c].pc == APull && none == ALeave && next == ASet)
    ensures Inv(Pull(s, c, none, next), n)
  {
    var p := s.cpus[c];
    ChecksAlwaysPass(s, n, c);
    if s.ready == [] {
      LocalStep(s, c, p.(pc := none), n);
    } else {
      var t := s.ready[0];
      HeldRunning(s, n, c, p.current);
      PullStep(s, c, p.(pc := next, to := t), n);
    }
  }

  lemma PushInv(s: State, c: nat, next: Pc, n: nat)
    requires Inv(s, n) && c < |s.cpus|
    requires (s.cpus[c].pc == YPush && next == YUnlock) || (s.cpus[c].pc == APush && next == ALeave)
    ensures Inv(Push(s, c, next), n)
  {
    var p := s.cpus[c];
    PushStep(s, c, p.(pc := next), n, p.from);
  }

  lemma GoIsExchange(s: State, c: nat) returns (got: Pc, retry: Pc)
    requires c < |s.cpus| && s.cpus[c].pc in {Offline, YSpin, ASpin} && CpuOk(s.cpus[c])
    ensures Go(s, c) == Exchange(s, c, got, retry)
    ensures !Holds(s.cpus[c]) ==> Takes(s.cpus[c], s.cpus[c].(pc := got))
    ensures Keeps(s.cpus[c], s.cpus[c].(pc := retry))
  {
    match s.cpus[c].pc
    case Offline => got, retry := JCreate, Offline;
    case YSpin => got, retry := YPull, YWait;
    case ASpin => got, retry := APull, AWait;
  }

  lemma SpinInv(s: State, c: nat, n: nat)
    requires Inv(s, n) && c < |s.cpus| && s.cpus[c].pc in {Offline, YSpin, ASpin}
    ensures Inv(Go(s, c), n)
  {
    var got, retry := GoIsExchange(s, c);
    ExchangeInv(s, c, got, retry, n);
  }

  /** The steps of thread code and of a yield that touch only the CPU's own record. */
  lemma YieldIsLocal(s: State, c: nat) returns (p: Cpu)
    requires c < |s.cpus| && CpuOk(s.cpus[c]) && s.cpus[c].pc in {Thread, YFlag, YWait, YSet, YLeave}
    ensures Go(s, c) == WithCpu(s, c, p) && Keeps(s.cpus[c], p)
  {
    p := s.cpus[c];
    match p.pc
    case Thread => p := p.(pc := YRead, intOn := false);
    case YFlag => p := p.(pc := YSpin, inSched := true);
    case YWait => p := p.(pc := if s.lock then YWait else YSpin);
    case YSet => p := p.(pc := YQueue, current := p.to);
    case YLeave => p := p.(pc := YUnlock, inSched := false);
  }

  lemma JoinIsLocal(s: State, c: nat) returns (p: Cpu)
    requires c < |s.cpus| && CpuOk(s.cpus[c]) && s.cpus[c].pc in {JTimer, JLeave, JSti}
    ensures Go(s, c) == WithCpu(s, c, p) && Keeps(s.cpus[c], p)
  {
    p := s.cpus[c];
    match p.pc
    case JTimer => p := p.(pc := JLeave, timerOn := true);
    case JLeave => p := p.(pc := JUnlock, inSched := false);
    case JSti => p := p.(pc := Thread, intOn := true);
  }

  lemma TimerIsLocal(s: State, c: nat) returns (p: Cpu)
    requires c < |s.cpus| && CpuOk(s.cpus[c]) && s.cpus[c].pc in {AEnter, AWait, ALeave, AIret}
    ensures Go(s, c) == WithCpu(s, c, p) && Keeps(s.cpus[c], p)
  {
    p := s.cpus[c];
    match p.pc
    case AEnter => p := p.(pc := ASpin);
    case AWait => p := p.(pc := if s.lock then AWait else ASpin);
    case ALeave => p := p.(pc := AUnlock, inSched := false);
    case AIret => p := p.(pc := p.resume, intOn := true);
  }

  /** The two steps that also settle where a thread goes on. */
  lemma ResumeIsLocal(s: State, c: nat) returns (p: Cpu, late: set<Tid>)
    requires c < |s.cpus| && CpuOk(s.cpus[c]) && s.cpus[c].pc in {YSti, ASet}
    ensures Go(s, c) == WithCpu(s, c, p).(late := late) && Keeps(s.cpus[c], p)
  {
    p := s.cpus[c];
    if p.pc == YSti {
      late := s.late - {p.current};
      p := p.(pc := ResumeAt(s, p.current), intOn := true);
    } else {
      late := (if p.resume == JSti then s.late + {p.current} else s.late) - {p.to};
      p := p.(pc := APush, resume := ResumeAt(s, p.to), from := p.current, current := p.to);
    }
  }

  lemma LateFree(s: State, n: nat, late: set<Tid>)
    requires Inv(s, n)
    ensures Inv(s.(late := late), n)
  {
    MutexKept(s, s.(late := late));
  }

  lemma ResumeInv(s: State, c: nat, n: nat)
    requires Inv(s, n) && c < |s.cpus| && s.cpus[c].pc in {YSti, ASet}
    ensures Inv(Go(s, c), n)
  {
    var p, late := ResumeIsLocal(s, c);
    LocalStep(s, c, p, n);
    LateFree(WithCpu(s, c, p), n, late);
  }

  lemma CheckIsLocal(s: State, c: nat) returns (p: Cpu)
    requires c < |s.cpus| && CpuOk(s.cpus[c]) && s.cpus[c].pc in {YRead, YQueue}
    requires forall t :: t in Held(s.cpus[c]) ==> t in s.tibs && s.tibs[t] == Tib(true, true)
    ensures Go(s, c) == WithCpu(s, c, p) && Keeps(s.cpus[c], p)
  {
    p := s.cpus[c];
    if p.pc == YRead {
      assert s.tibs[p.current := s.tibs[p.current].(running := true)] == s.tibs;
      p := p.(pc := YFlag, from := p.current);
    } else {
      p := p.(pc := YPush, inSched := false);
    }
  }

  lemma YieldInv(s: State, c: nat, n: nat)
    requires Inv(s, n) && c < |s.cpus| && s.cpus[c].pc in {Thread, YFlag, YWait, YSet, YLeave}
    ensures Inv(Go(s, c), n)
  {
    var p := YieldIsLocal(s, c);
    LocalStep(s, c, p, n);
  }

  lemma JoinInv(s: State, c: nat, n: nat)
    requires Inv(s, n) && c < |s.cpus| && s.cpus[c].pc in {JTimer, JLeave, JSti}
    ensures Inv(Go(s, c), n)
  {
    var p := JoinIsLocal(s, c);
    LocalStep(s, c, p, n);
  }

  lemma TimerInv(s: State, c: nat, n: nat)
    requires Inv(s, n) && c < |s.cpus| && s.cpus[c].pc in {AEnter, AWait, ALeave, AIret}
    ensures Inv(Go(s, c), n)
  {
    var p := TimerIsLocal(s, c);
    LocalStep(s, c, p, n);
  }

  lemma CheckInv(s: State, c: nat, n: nat)
    requires Inv(s, n) && c < |s.cpus| && s.cpus[c].pc in {YRead, YQueue}
    ensures Inv(Go(s, c), n)
  {
    forall t | t in Held(s.cpus[c]) ensures t in s.tibs && s.tibs[t] == Tib(true, true) {
      HeldRunning(s, n, c, t);
    }
    var p := CheckIsLocal(s, c);
    LocalStep(s, c, p, n);
  }

  lemma GoIsPull(s: State, c: nat) returns (none: Pc, next: Pc)
    requires c < |s.cpus| && s.cpus[c].pc in {YPull, APull}
    ensures Go(s, c) == Pull(s, c, none, next)
    ensures (s.cpus[c].pc, none, next) in {(YPull, YLeave, YSet), (APull, ALeave, ASet)}
  {
    match s.cpus[c].pc
    case YPull => none, next := YLeave, YSet;
    case APull => none, next := ALeave, ASet;
  }

  lemma PullGo(s: State, c: nat, n: nat)
    requires Inv(s, n) && c < |s.cpus| && s.cpus[c].pc in {YPull, APull}
    ensures Inv(Go(s, c), n)
  {
    var none, next := GoIsPull(s, c);
    PullInv(s, c, none, next, n);
  }

  lemma PushGo(s: State, c: nat, n: nat)
    requires Inv(s, n) && c < |s.cpus| && s.cpus[c].pc in {YPush, APush}
    ensures Inv(Go(s, c), n)
  {
    var p := s.cpus[c];
    match p.pc
    case YPush =>
      PushInv(s, c, YUnlock, n);
      assert Go(s, c) == Push(s, c, YUnlock);
    case APush =>
      PushInv(s, c, ALeave, n);
      assert Go(s, c) == Push(s, c, ALeave);
  }

  lemma GoIsUnlock(s: State, c: nat) returns (p: Cpu)
    requires c < |s.cpus| && s.cpus[c].pc in {JUnlock, YUnlock, AUnlock}
    requires CpuOk(s.cpus[c])
    ensures Go(s, c) == WithCpu(s, c, p).(lock := false)
    ensures CpuOk(p) && Holds(s.cpus[c]) && !Holds(p) && Held(p) == Held(s.cpus[c])
    ensures !Switching(p) && !Switching(s.cpus[c])
  {
    p := s.cpus[c];
    match s.cpus[c].pc
    case JUnlock => p := p.(pc := JSti);
    case YUnlock => p := p.(pc := YSti);
    case AUnlock => p := p.(pc := AIret);
  }

  lemma UnlockInv(s: State, c: nat, n: nat)
    requires Inv(s, n) && c < |s.cpus| && s.cpus[c].pc in {JUnlock, YUnlock, AUnlock}
    ensures Inv(Go(s, c), n)
  {
    var p := GoIsUnlock(s, c);
    ReleaseStep(s, c, p, n);
  }

  lemma GoInv(s: State, c: nat, n: nat)
    requires Inv(s, n) && c < |s.cpus| && s.cpus[c].pc != JCreate
    ensures Inv(Go(s, c), n)
  {
    match s.cpus[c].pc
    case Offline | YSpin | ASpin => SpinInv(s, c, n);
    case YPull | APull => PullGo(s, c, n);
    case YPush | APush => PushGo(s, c, n);
    case JUnlock | YUnlock | AUnlock => UnlockInv(s, c, n);
    case YRead | YQueue => CheckInv(s, c, n);
    case AEnter | AWait | ALeave | AIret => TimerInv(s, c, n);
    case YSti | ASet => ResumeInv(s, c, n);
    case JTimer | JLeave | JSti => JoinInv(s, c, n);
    case Halted =>
    case _ => YieldInv(s, c, n);
  }

  lemma StepInv(s: State, a: Act, n: nat)
    requires Inv(s, n) && Enabled(s, a)
    ensures Inv(Do(s, a), n)
  {
    var p := s.cpus[a.cpu];
    match a.event
    case Advance => GoInv(s, a.cpu, n);
    case Create(t) => CreateStep(s, a.cpu, p.(pc := JTimer, current := t), n, t);
    case Timer => LocalStep(s, a.cpu, p.(pc := AEnter, resume := p.pc, intOn := false), n);
    case SetInt(on) => LocalStep(s, a.cpu, p.(intOn := on), n);
  }

  // ---------------------------------------------------------------- runs

  /** Step `i` of a run: from `tr[i]` by `acts[i]` to `tr[i + 1]`. */
  ghost predicate StepAt(tr: seq<State>, acts: seq<Act>, i: nat)
    requires i < |acts| && |tr| == |acts| + 1
  {
    Enabled(tr[i], acts[i]) && tr[i + 1] == Do(tr[i], acts[i])
  }

  /** The states `tr` are those of a run that takes the steps `acts`, on any CPUs in any order. */
  ghost predicate IsRun(tr: seq<State>, acts: seq<Act>) {
    |tr| == |acts| + 1 && forall i {:trigger StepAt(tr, acts, i)} :: 0 <= i < |acts| ==> StepAt(tr, acts, i)
  }

  function Booted(intOn: bool): (p: Cpu) {
    Cpu(Offline, Offline, intOn, false, false, 0, 0, 0)
  }

  /** The state scheduler_init waits for: the ready list is set up and no CPU has joined.
      `boot[c]` tells whether CPU `c` arrives with interrupts enabled. */
  ghost predicate Initial(s: State, boot: seq<bool>) {
    && !s.lock && Distinct(s.ready) && s.late == {}
    && s.tibs == (map t | t in s.ready :: Tib(false, false))
    && |s.cpus| == |boot|
    && forall c :: 0 <= c < |boot| ==> s.cpus[c] == Booted(boot[c])
  }

  ghost predicate QuietBoot(boot: seq<bool>) {
    forall c :: 0 <= c < |boot| ==> !boot[c]
  }

  lemma InitialInv(s: State, boot: seq<bool>)
    requires Initial(s, boot)
    ensures Inv(s, |s.ready|)
  {
  }

  /** The invariant holds in every state of every interleaving, on any number of CPUs. */
  lemma {:induction false} RunKeepsInv(tr: seq<State>, acts: seq<Act>, n: nat, k: nat)
    requires IsRun(tr, acts) && Inv(tr[0], n) && k <= |acts|
    ensures Inv(tr[k], n)
  {
    if k > 0 {
      RunKeepsInv(tr, acts, n, k - 1);
      assert StepAt(tr, acts, k - 1);
      StepInv(tr[k - 1], acts[k - 1], n);
    }
  }

  lemma RunInv(tr: seq<State>, acts: seq<Act>, boot: seq<bool>, k: nat)
    requires IsRun(tr, acts) && Initial(tr[0], boot) && k <= |acts|
    ensures Inv(tr[k], |tr[0].ready|)
  {
    InitialInv(tr[0], boot);
    RunKeepsInv(tr, acts, |tr[0].ready|, k);
  }

  /** In every reachable state a thread is once in the ready list, or in the hands of exactly
      one CPU, and never both. */
  lemma RunPlacesThreads(tr: seq<State>, acts: seq<Act>, boot: seq<bool>, k: nat, t: Tid)
    requires IsRun(tr, acts) && Initial(tr[0], boot) && k <= |acts| && t in tr[k].tibs
    ensures var r := tr[k];
            && (forall i, j :: 0 <= i < |r.ready| && 0 <= j < |r.ready| && r.ready[i] == t == r.ready[j] ==> i == j)
            && (t in r.ready <==> forall c :: 0 <= c < |r.cpus| ==> t !in Held(r.cpus[c]))
            && (forall c, d :: 0 <= c < d < |r.cpus| ==> !(t in Held(r.cpus[c]) && t in Held(r.cpus[d])))
  {
    RunInv(tr, acts, boot, k);
    var r := tr[k];
    var hs := Hands(r.cpus);
    if t !in r.ready {
      assert InSomeHand(t, hs);
      var c :| 0 <= c < |hs| && t in hs[c];
      assert t in Held(r.cpus[c]);
    } else {
      assert forall c :: 0 <= c < |hs| ==> t !in hs[c];
    }
    assert forall c :: 0 <= c < |r.cpus| ==> hs[c] == Held(r.cpus[c]);
  }

  /** The CPU spins on a lock that it holds itself. */
  predicate SelfDeadlocked(p: Cpu) {
    p.pc in {Offline, YSpin, YWait, ASpin, AWait} && Holds(p)
  }

  /** No assertion fails, `in_scheduler` is set exactly from its store in scheduler_yield to the one on
      leaving and implies interrupts off, the guard of scheduler_async_enter never fires, and no CPU
      tries to take the lock it holds unless it was interrupted in its join. */
  lemma RunIsSafe(tr: seq<State>, acts: seq<Act>, boot: seq<bool>, k: nat, c: nat)
    requires IsRun(tr, acts) && Initial(tr[0], boot) && k <= |acts| && c < |tr[k].cpus|
    ensures var p := tr[k].cpus[c];
            && p.pc != Halted
            && (p.inSched <==> p.pc in {YSpin, YWait, YPull, YSet, YQueue, YLeave})
            && (p.inSched ==> !p.intOn)
            && (p.pc == AEnter ==> !p.inSched)
            && (p.timerOn <==> p.pc !in {Offline, JCreate, JTimer})
            && (SelfDeadlocked(p) ==> exists i :: 0 <= i < k && TrapAt(tr, acts, c, i))
  {
    RunInv(tr, acts, boot, k);
    SafeCpu(tr[k].cpus[c]);
    TrappedExactly(tr, acts, boot, k, c);
  }

  lemma SafeCpu(p: Cpu)
    requires CpuOk(p)
    ensures p.pc != Halted && (p.inSched ==> !p.intOn) && (p.pc == AEnter ==> !p.inSched)
    ensures p.inSched <==> p.pc in {YSpin, YWait, YPull, YSet, YQueue, YLeave}
    ensures p.timerOn <==> p.pc !in {Offline, JCreate, JTimer}
    ensures SelfDeadlocked(p) ==> Trapped(p)
  {
  }

  /** At most one CPU is between taking the lock and releasing it, and then the lock is busy. */
  lemma RunExcludes(tr: seq<State>, acts: seq<Act>, boot: seq<bool>, k: nat, c: nat, d: nat)
    requires IsRun(tr, acts) && Initial(tr[0], boot) && k <= |acts|
    requires c < |tr[k].cpus| && d < |tr[k].cpus| && Holds(tr[k].cpus[c])
    ensures tr[k].lock && (Holds(tr[k].cpus[d]) ==> c == d)
  {
    RunInv(tr, acts, boot, k);
  }

  /** Whenever the lock is free the ready list is as long as it was at the start. */
  lemma RunKeepsReadyLength(tr: seq<State>, acts: seq<Act>, boot: seq<bool>, k: nat)
    requires IsRun(tr, acts) && Initial(tr[0], boot) && k <= |acts|
    ensures !tr[k].lock ==> |tr[k].ready| == |tr[0].ready|
    ensures |tr[0].ready| - 1 <= |tr[k].ready| <= |tr[0].ready|
  {
    RunInv(tr, acts, boot, k);
    if c :| 0 <= c < |tr[k].cpus| && Switching(tr[k].cpus[c]) {
      assert Holds(tr[k].cpus[c]);
    }
  }

  const MAX_THREAD_COUNT := 128
  const NODE_POOL_SIZE := 1024

  /** Thread ids are indices of the thread pool, so the ready list never uses up its nodes. */
  lemma ReadyListHasNodes(tr: seq<State>, acts: seq<Act>, boot: seq<bool>, k: nat)
    requires IsRun(tr, acts) && Initial(tr[0], boot) && k <= |acts|
    requires forall t :: t in tr[k].tibs ==> t < MAX_THREAD_COUNT
    ensures |tr[k].ready| <= MAX_THREAD_COUNT < NODE_POOL_SIZE
  {
    RunInv(tr, acts, boot, k);
    var ready := tr[k].ready;
    assert forall i :: 0 <= i < |ready| ==> ready[i] in ready;
    var _ := DistinctBelow(ready, MAX_THREAD_COUNT);
  }

  // ---------------------------------------------------------------- first in, first out

  /** The step takes a thread off the ready list. */
  predicate Pulls(s: State, a: Act) {
    Enabled(s, a) && a.event == Advance && s.cpus[a.cpu].pc in {YPull, APull} && s.ready != []
  }

  /** How many of the first `k` steps of a run do. */
  ghost function CountPulls(tr: seq<State>, acts: seq<Act>, k: nat): (n: nat)
    requires |tr| == |acts| + 1 && k <= |acts|
  {
    if k == 0 then 0 else CountPulls(tr, acts, k - 1) + if Pulls(tr[k - 1], acts[k - 1]) then 1 else 0
  }

  /** A step only appends to the ready list, except that a pull first takes its head. */
  lemma StepIsFifo(s: State, a: Act)
    requires Enabled(s, a) && ChecksPass(s, s.cpus[a.cpu])
    ensures (if Pulls(s, a) then s.ready[1..] else s.ready) <= Do(s, a).ready
  {
  }

  lemma RunIsFifo(tr: seq<State>, acts: seq<Act>, n: nat, k: nat)
    requires IsRun(tr, acts) && Inv(tr[0], n) && k < |acts|
    ensures (if Pulls(tr[k], acts[k]) then tr[k].ready[1..] else tr[k].ready) <= tr[k + 1].ready
  {
    RunKeepsInv(tr, acts, n, k);
    assert StepAt(tr, acts, k);
    ChecksAlwaysPass(tr[k], n, acts[k].cpu);
    StepIsFifo(tr[k], acts[k]);
  }

  /** After `c` successful pulls, whichever CPUs made them, what is left of the old ready list has
      moved up by `c` places and is still in front. */
  lemma {:induction false} WaitingMovesUp(tr: seq<State>, acts: seq<Act>, n: nat, k: nat)
    requires IsRun(tr, acts) && Inv(tr[0], n) && k <= |acts|
    requires CountPulls(tr, acts, k) <= |tr[0].ready|
    ensures tr[0].ready[CountPulls(tr, acts, k)..] <= tr[k].ready
  {
    if k > 0 {
      WaitingMovesUp(tr, acts, n, k - 1);
      RunIsFifo(tr, acts, n, k - 1);
      PrefixMoves(tr[0].ready, tr[k - 1].ready, tr[k].ready, CountPulls(tr, acts, k - 1),
                  Pulls(tr[k - 1], acts[k - 1]));
    }
  }

  lemma PrefixMoves(first: seq<Tid>, mid: seq<Tid>, last: seq<Tid>, c: nat, pull: bool)
    requires c <= |first| && first[c..] <= mid && (pull ==> mid != [] && c < |first|)
    requires (if pull then mid[1..] else mid) <= last
    ensures first[if pull then c + 1 else c..] <= last
  {
    if pull {
      assert first[c..][1..] == first[c + 1..];
    }
  }

  lemma PullTakesHead(s: State, n: nat, a: Act)
    requires Inv(s, n) && Pulls(s, a)
    ensures Do(s, a).cpus[a.cpu].to == s.ready[0]
  {
    ChecksAlwaysPass(s, n, a.cpu);
  }

  /** So the thread at position `p` is dispatched by exactly the (p+1)-th pull. */
  lemma DispatchOrder(tr: seq<State>, acts: seq<Act>, n: nat, k: nat)
    requires IsRun(tr, acts) && Inv(tr[0], n) && k < |acts| && Pulls(tr[k], acts[k])
    requires CountPulls(tr, acts, k) < |tr[0].ready|
    ensures acts[k].cpu < |tr[k + 1].cpus|
    ensures tr[k + 1].cpus[acts[k].cpu].to == tr[0].ready[CountPulls(tr, acts, k)]
  {
    WaitingMovesUp(tr, acts, n, k);
    RunKeepsInv(tr, acts, n, k);
    assert StepAt(tr, acts, k);
    PullTakesHead(tr[k], n, acts[k]);
  }

  // ---------------------------------------------------------------- progress

  function StepsToUnlock(pc: Pc): (d: nat) {
    match pc
    case YPull => 5 case YSet => 4 case YQueue => 3 case YPush => 2 case YLeave => 2 case YUnlock => 1
    case APull => 5 case ASet => 4 case APush => 3 case ALeave => 2 case AUnlock => 1
    case JCreate => 4 case JTimer => 3 case JLeave => 2 case JUnlock => 1
    case _ => 0
  }

  /** A lock holder that is not trapped can always go on, and frees the lock within five steps of
      its own. */
  lemma {:induction false} HolderUnlocks(s: State, n: nat, c: nat) returns (tr: seq<State>, acts: seq<Act>)
    requires Inv(s, n) && c < |s.cpus| && Holds(s.cpus[c]) && !Trapped(s.cpus[c])
    ensures IsRun(tr, acts) && tr[0] == s && !tr[|acts|].lock
    ensures |acts| <= StepsToUnlock(s.cpus[c].pc) <= 5
    ensures forall a :: a in acts ==> a.cpu == c
    decreases StepsToUnlock(s.cpus[c].pc)
  {
    var a := HolderAct(s, c);
    if StepsToUnlock(s.cpus[c].pc) == 1 {
      tr, acts := [s, Do(s, a)], [a];
      assert StepAt(tr, acts, 0);
    } else {
      HolderStep(s, n, a);
      StepInv(s, a, n);
      tr, acts := HolderUnlocks(Do(s, a), n, c);
      StepThenRun(s, a, tr, acts);
      tr, acts := [s] + tr, [a] + acts;
    }
  }

  lemma HolderAct(s: State, c: nat) returns (a: Act)
    requires c < |s.cpus| && CpuOk(s.cpus[c]) && Holds(s.cpus[c]) && !Trapped(s.cpus[c])
    ensures a.cpu == c && Enabled(s, a) && (a.event == Advance || a.event.Create?)
    ensures 1 <= StepsToUnlock(s.cpus[c].pc) <= 5
    ensures StepsToUnlock(s.cpus[c].pc) == 1 ==> !Do(s, a).lock
  {
    a := Act(c, Advance);
    if s.cpus[c].pc == JCreate {
      var t := FreshTid(s.tibs.Keys);
      a := Act(c, Create(t));
    }
  }

  lemma StepThenRun(s: State, a: Act, tr: seq<State>, acts: seq<Act>)
    requires IsRun(tr, acts) && Enabled(s, a) && Do(s, a) == tr[0]
    ensures IsRun([s] + tr, [a] + acts) && ([s] + tr)[|acts| + 1] == tr[|acts|]
  {
    var tr', acts' := [s] + tr, [a] + acts;
    forall i | 0 <= i < |acts'| ensures StepAt(tr', acts', i) {
      if i > 0 { assert StepAt(tr, acts, i - 1); }
    }
  }

  /** A step that brings the holder closer to the release. */
  ghost predicate Closer(p: Cpu, q: Cpu) {
    Holds(q) && !Trapped(q) && StepsToUnlock(q.pc) < StepsToUnlock(p.pc)
  }

  lemma YieldCloser(s: State, c: nat)
    requires c < |s.cpus| && CpuOk(s.cpus[c]) && ChecksPass(s, s.cpus[c])
    requires s.cpus[c].pc in {YPull, YSet, YQueue, YPush, YLeave}
    ensures Closer(s.cpus[c], Go(s, c).cpus[c])
  {
  }

  lemma TimerCloser(s: State, c: nat)
    requires c < |s.cpus| && CpuOk(s.cpus[c]) && ChecksPass(s, s.cpus[c])
    requires s.cpus[c].pc in {APull, ASet, APush, ALeave}
    ensures Closer(s.cpus[c], Go(s, c).cpus[c])
  {
  }

  lemma JoinCloser(s: State, a: Act)
    requires Enabled(s, a) && a.event != Timer && s.cpus[a.cpu].pc in {JCreate, JTimer, JLeave}
    ensures Closer(s.cpus[a.cpu], Do(s, a).cpus[a.cpu])
  {
  }

  lemma HolderStep(s: State, n: nat, a: Act)
    requires Inv(s, n) && Enabled(s, a) && Holds(s.cpus[a.cpu]) && StepsToUnlock(s.cpus[a.cpu].pc) > 1
    requires a.event == Advance || a.event.Create?
    ensures Closer(s.cpus[a.cpu], Do(s, a).cpus[a.cpu])
  {
    ChecksAlwaysPass(s, n, a.cpu);
    match s.cpus[a.cpu].pc
    case JCreate | JTimer | JLeave => JoinCloser(s, a);
    case APull | ASet | APush | ALeave => TimerCloser(s, a.cpu);
    case _ => YieldCloser(s, a.cpu);
  }

  lemma {:induction false} FreshTid(used: set<Tid>) returns (t: Tid)
    ensures t !in used && forall u :: u in used ==> u < t
    decreases |used|
  {
    if used == {} {
      t := 0;
    } else {
      var x :| x in used;
      var y := FreshTid(used - {x});
      assert forall u :: u in used ==> u == x || u in used - {x};
      t := if x < y then y else x + 1;
    }
  }

  // ---------------------------------------------------------------- the trap in a join

  /** The step is not a timer interrupt between the start of the timer and the release of the lock
      in a join. */
  predicate Calm(s: State, a: Act)
    requires Enabled(s, a)
  {
    a.event == Timer ==> s.cpus[a.cpu].pc !in {JLeave, JUnlock}
  }

  /** CPU `c` takes such an interrupt at step `i`. */
  ghost predicate TrapAt(tr: seq<State>, acts: seq<Act>, c: nat, i: nat)
    requires i < |acts| && |tr| == |acts| + 1
  {
    acts[i].cpu == c && Enabled(tr[i], acts[i]) && !Calm(tr[i], acts[i])
  }

  /** A CPU is trapped if and only if it once took such an interrupt. */
  lemma {:induction false} TrappedExactly(tr: seq<State>, acts: seq<Act>, boot: seq<bool>, k: nat, c: nat)
    requires IsRun(tr, acts) && Initial(tr[0], boot) && k <= |acts| && c < |tr[k].cpus|
    ensures Trapped(tr[k].cpus[c]) <==> exists i :: 0 <= i < k && TrapAt(tr, acts, c, i)
  {
    if k > 0 {
      assert StepAt(tr, acts, k - 1);
      OthersUnchanged(tr[k - 1], acts[k - 1]);
      TrappedExactly(tr, acts, boot, k - 1, c);
      RunInv(tr, acts, boot, k - 1);
      TrapStep(tr[k - 1], acts[k - 1]);
      assert Trapped(tr[k].cpus[c]) <==> Trapped(tr[k - 1].cpus[c]) || TrapAt(tr, acts, c, k - 1);
    }
  }

  lemma TrapStep(s: State, a: Act)
    requires Enabled(s, a) && CpuOk(s.cpus[a.cpu])
    ensures |Do(s, a).cpus| == |s.cpus|
    ensures Trapped(Do(s, a).cpus[a.cpu]) <==> Trapped(s.cpus[a.cpu]) || !Calm(s, a)
  {
    if a.event == Advance {
      if InIrq(s.cpus[a.cpu].pc) { TrapTimer(s, a.cpu); } else { TrapRest(s, a.cpu); }
    }
  }

  lemma TrapTimer(s: State, c: nat)
    requires c < |s.cpus| && CpuOk(s.cpus[c]) && InIrq(s.cpus[c].pc)
    ensures |Go(s, c).cpus| == |s.cpus| && Trapped(Go(s, c).cpus[c]) == Trapped(s.cpus[c])
  {
  }

  lemma TrapRest(s: State, c: nat)
    requires c < |s.cpus| && CpuOk(s.cpus[c]) && !InIrq(s.cpus[c].pc)
    ensures |Go(s, c).cpus| == |s.cpus| && !InIrq(Go(s, c).cpus[c].pc)
  {
    if Joining(s.cpus[c].pc) {
      JoinGoes(s, c);
    } else {
      YieldGoes(s, c);
    }
  }

  lemma JoinGoes(s: State, c: nat)
    requires c < |s.cpus| && Joining(s.cpus[c].pc)
    ensures var q := Go(s, c).cpus[c];
            !InIrq(q.pc) && (Joining(q.pc) ==> q.intOn == s.cpus[c].intOn)
    ensures |Go(s, c).cpus| == |s.cpus| && Go(s, c).late == s.late
  {
  }

  /** A yield goes on as thread code, unless it resumes a thread that was interrupted in a join. */
  lemma YieldGoes(s: State, c: nat)
    requires c < |s.cpus| && CpuOk(s.cpus[c]) && !InIrq(s.cpus[c].pc) && !Joining(s.cpus[c].pc)
    ensures |Go(s, c).cpus| == |s.cpus| && !InIrq(Go(s, c).cpus[c].pc)
    ensures s.late == {} ==> Go(s, c).late == {} && !Joining(Go(s, c).cpus[c].pc)
  {
    match s.cpus[c].pc
    case YPull | YSet | YQueue | YPush => SwitchGoes(s, c);
    case YLeave | YUnlock | YSti => LeaveGoes(s, c);
    case _ => EnterGoes(s, c);
  }

  lemma EnterGoes(s: State, c: nat)
    requires c < |s.cpus| && s.cpus[c].pc in {Thread, YRead, YFlag, YSpin, YWait}
    ensures |Go(s, c).cpus| == |s.cpus| && !InIrq(Go(s, c).cpus[c].pc)
    ensures Go(s, c).late == s.late && !Joining(Go(s, c).cpus[c].pc)
  {
  }

  lemma SwitchGoes(s: State, c: nat)
    requires c < |s.cpus| && s.cpus[c].pc in {YPull, YSet, YQueue, YPush}
    ensures |Go(s, c).cpus| == |s.cpus| && !InIrq(Go(s, c).cpus[c].pc)
    ensures Go(s, c).late == s.late && !Joining(Go(s, c).cpus[c].pc)
  {
  }

  lemma LeaveGoes(s: State, c: nat)
    requires c < |s.cpus| && s.cpus[c].pc in {YLeave, YUnlock, YSti}
    ensures |Go(s, c).cpus| == |s.cpus| && !InIrq(Go(s, c).cpus[c].pc)
    ensures s.late == {} ==> Go(s, c).late == {} && !Joining(Go(s, c).cpus[c].pc)
  {
  }

  // ---------------------------------------------------------------- joining with interrupts on

  /** A CPU that joins with interrupts enabled, as init_ap leaves them, can take the timer
      interrupt between timer_lapic_start and the release of the lock, and then spins on the
      lock it holds. */
  lemma NoisyJoin(s: State, boot: seq<bool>, c: nat) returns (tr: seq<State>, acts: seq<Act>)
    requires Initial(s, boot) && c < |boot| && boot[c]
    ensures IsRun(tr, acts) && tr[0] == s && Stuck(tr[|acts|], c) && SelfDeadlocked(tr[|acts|].cpus[c])
  {
    var t := FreshTid(s.tibs.Keys);
    assert s.cpus[c] == Booted(true);
    var s1 := Do(s, Act(c, Advance));
    var s2 := Do(s1, Act(c, Create(t)));
    var s3 := Do(s2, Act(c, Advance));
    var s4 := Do(s3, Act(c, Timer));
    var s5 := Do(s4, Act(c, Advance));
    tr := [s, s1, s2, s3, s4, s5];
    acts := [Act(c, Advance), Act(c, Create(t)), Act(c, Advance), Act(c, Timer), Act(c, Advance)];
    forall i | 0 <= i < 5 ensures StepAt(tr, acts, i) {
      assert i == 0 || i == 1 || i == 2 || i == 3 || i == 4;
    }
  }

  /** CPU `c` is to spin in its timer interrupt on the lock it took to join; nobody else has it. */
  ghost predicate Stuck(s: State, c: nat) {
    && c < |s.cpus| && s.lock
    && s.cpus[c].pc in {AEnter, ASpin, AWait} && Trapped(s.cpus[c]) && !s.cpus[c].intOn && !s.cpus[c].inSched
    && forall d :: 0 <= d < |s.cpus| && d != c ==> !Holds(s.cpus[d])
  }

  /** From there the lock is never free again, whatever any CPU does. */
  lemma {:induction false} StuckForever(tr: seq<State>, acts: seq<Act>, c: nat, k: nat)
    requires IsRun(tr, acts) && Stuck(tr[0], c) && k <= |acts|
    ensures Stuck(tr[k], c)
  {
    if k > 0 {
      StuckForever(tr, acts, c, k - 1);
      assert StepAt(tr, acts, k - 1);
      StuckStep(tr[k - 1], c, acts[k - 1]);
    }
  }

  lemma StuckStep(s: State, c: nat, a: Act)
    requires Stuck(s, c) && Enabled(s, a)
    ensures Stuck(Do(s, a), c)
  {
    OthersUnchanged(s, a);
    if a.cpu != c { BystanderStep(s, a); }
  }

  /** A step changes no other CPU. */
  lemma OthersUnchanged(s: State, a: Act)
    requires Enabled(s, a)
    ensures |Do(s, a).cpus| == |s.cpus|
    ensures forall d :: 0 <= d < |s.cpus| && d != a.cpu ==> Do(s, a).cpus[d] == s.cpus[d]
  {
    if a.event == Advance {
      if InIrq(s.cpus[a.cpu].pc) { OthersInTimer(s, a.cpu); } else { OthersInYield(s, a.cpu); }
    }
  }

  lemma OthersInTimer(s: State, c: nat)
    requires c < |s.cpus| && InIrq(s.cpus[c].pc)
    ensures Go(s, c).cpus == s.cpus[c := Go(s, c).cpus[c]]
  {
  }

  lemma OthersInYield(s: State, c: nat)
    requires c < |s.cpus| && !InIrq(s.cpus[c].pc)
    ensures Go(s, c).cpus == s.cpus[c := Go(s, c).cpus[c]]
  {
  }

  /** While the lock is busy a CPU that does not hold it neither gets nor frees it. */
  lemma BystanderStep(s: State, a: Act)
    requires Enabled(s, a) && s.lock && !Holds(s.cpus[a.cpu])
    ensures Do(s, a).lock && |Do(s, a).cpus| == |s.cpus| && !Holds(Do(s, a).cpus[a.cpu])
  {
    if a.event == Advance { BystanderGo(s, a.cpu); }
  }

  lemma BystanderGo(s: State, c: nat)
    requires c < |s.cpus| && s.lock && !Holds(s.cpus[c])
    ensures Go(s, c).lock && |Go(s, c).cpus| == |s.cpus| && !Holds(Go(s, c).cpus[c])
  {
  }

  /** A run that frees the lock. */
  ghost predicate Frees(s: State, tr: seq<State>, acts: seq<Act>) {
    IsRun(tr, acts) && tr[0] == s && !tr[|acts|].lock
  }

  /** A busy lock can become free again if and only if its holder is not trapped. */
  lemma FreeAgainExactly(s: State, n: nat, c: nat)
    requires Inv(s, n) && c < |s.cpus| && Holds(s.cpus[c])
    ensures (exists tr, acts :: Frees(s, tr, acts)) <==> !Trapped(s.cpus[c])
  {
    if Trapped(s.cpus[c]) {
      assert Stuck(s, c);
      forall tr, acts ensures !Frees(s, tr, acts) {
        if Frees(s, tr, acts) { StuckForever(tr, acts, c, |acts|); }
      }
    } else {
      var tr, acts := HolderUnlocks(s, n, c);
      assert Frees(s, tr, acts);
    }
  }

  ghost predicate Quiet(p: Cpu) {
    (Joining(p.pc) ==> !p.intOn) && (InIrq(p.pc) ==> p.resume == Thread)
  }

  ghost predicate QuietJoins(s: State) {
    s.late == {} && forall c :: 0 <= c < |s.cpus| ==> Quiet(s.cpus[c])
  }

  /** When every CPU joins with interrupts off no timer interrupt lands inside a join. */
  lemma {:induction false} QuietJoinsStay(tr: seq<State>, acts: seq<Act>, n: nat, k: nat)
    requires IsRun(tr, acts) && Inv(tr[0], n) && QuietJoins(tr[0]) && k <= |acts|
    ensures Inv(tr[k], n) && QuietJoins(tr[k])
  {
    if k > 0 {
      QuietJoinsStay(tr, acts, n, k - 1);
      assert StepAt(tr, acts, k - 1);
      StepInv(tr[k - 1], acts[k - 1], n);
      QuietStep(tr[k - 1], acts[k - 1]);
    }
  }

  lemma QuietStep(s: State, a: Act)
    requires QuietJoins(s) && Enabled(s, a) && CpuOk(s.cpus[a.cpu])
    ensures QuietJoins(Do(s, a))
  {
    OthersUnchanged(s, a);
    if a.event == Advance { QuietGo(s, a.cpu); }
    assert Quiet(Do(s, a).cpus[a.cpu]);
  }

  lemma QuietGo(s: State, c: nat)
    requires c < |s.cpus| && s.late == {} && CpuOk(s.cpus[c]) && Quiet(s.cpus[c])
    ensures Go(s, c).late == {} && |Go(s, c).cpus| == |s.cpus| && Quiet(Go(s, c).cpus[c])
  {
    if InIrq(s.cpus[c].pc) {
      QuietTimer(s, c);
    } else if Joining(s.cpus[c].pc) {
      JoinGoes(s, c);
    } else {
      YieldGoes(s, c);
    }
  }

  lemma QuietTimer(s: State, c: nat)
    requires c < |s.cpus| && s.late == {} && CpuOk(s.cpus[c]) && Quiet(s.cpus[c]) && InIrq(s.cpus[c].pc)
    ensures Go(s, c).late == {} && |Go(s, c).cpus| == |s.cpus| && Quiet(Go(s, c).cpus[c])
  {
  }

  lemma QuietRunIsCalm(tr: seq<State>, acts: seq<Act>, boot: seq<bool>, c: nat, i: nat)
    requires IsRun(tr, acts) && Initial(tr[0], boot) && QuietBoot(boot) && i < |acts|
    ensures !TrapAt(tr, acts, c, i)
  {
    InitialInv(tr[0], boot);
    assert QuietJoins(tr[0]);
    QuietJoinsStay(tr, acts, |tr[0].ready|, i);
  }

  /** Some run from `s` ends with a CPU spinning on its own lock. */
  ghost predicate Deadlocks(s: State, tr: seq<State>, acts: seq<Act>, c: nat) {
    IsRun(tr, acts) && tr[0] == s && c < |tr[|acts|].cpus| && SelfDeadlocked(tr[|acts|].cpus[c])
  }

  /** Some interleaving leaves a CPU spinning on its own lock exactly when some CPU joins
      with interrupts enabled. */
  lemma SelfDeadlockExactly(s: State, boot: seq<bool>)
    requires Initial(s, boot)
    ensures (exists tr, acts, c :: Deadlocks(s, tr, acts, c)) <==> !QuietBoot(boot)
  {
    if QuietBoot(boot) {
      forall tr, acts, c ensures !Deadlocks(s, tr, acts, c) {
        if Deadlocks(s, tr, acts, c) {
          RunIsSafe(tr, acts, boot, |acts|, c);
          var i :| 0 <= i < |acts| && TrapAt(tr, acts, c, i);
          QuietRunIsCalm(tr, acts, boot, c, i);
        }
      }
    } else {
      var c :| 0 <= c < |boot| && boot[c];
      var tr, acts := NoisyJoin(s, boot, c);
      assert Deadlocks(s, tr, acts, c);
    }
  }
}
