/** The cyclic, time-partitioned scheduler (core/kernel/sched.c).  `State` holds the fields of
    `struct sched_data`; the functions on it say what a scheduling point decides without any of the
    incremental bookkeeping, the class `SchedData` does it as the kernel does, and the lemmas speak
    about every run. */
module Scheduler {
  import opened Arithmetic
  import opened Options

  // ----- plans -----

  datatype Kthread = Idle | Vcpu(partition: nat, vcpu: nat)

  datatype Slot = Slot(startExec: nat, endExec: nat, owner: Kthread)

  datatype Plan = Plan(id: int, majorFrame: nat, slots: seq<Slot>)

  const U32: int := 0x1_0000_0000

  /** What the configuration promises: slots in order, disjoint, inside a positive 32-bit frame, and
      owned by partitions. */
  predicate ValidPlan(p: Plan) {
    && 0 < p.majorFrame < U32
    && (forall i | 0 <= i < |p.slots| ::
          && p.slots[i].startExec < p.slots[i].endExec <= p.majorFrame
          && p.slots[i].owner.Vcpu?)
    && (forall i, j | 0 <= i < j < |p.slots| :: p.slots[i].endExec <= p.slots[j].startExec)
  }

  predicate Covers(s: Slot, t: int) {
    s.startExec <= t < s.endExec
  }

  /** The first slot that ends after `t`, or the number of slots. */
  function FirstEnding(slots: seq<Slot>, t: int): (i: nat)
    ensures i <= |slots|
    ensures i < |slots| ==> t < slots[i].endExec
    ensures forall j | 0 <= j < i :: slots[j].endExec <= t
  {
    if slots == [] || t < slots[0].endExec then 0 else 1 + FirstEnding(slots[1..], t)
  }

  /** That slot is the only one that can cover `t`. */
  lemma FirstEndingCovers(p: Plan, t: int, i: nat)
    requires ValidPlan(p) && i < |p.slots| && Covers(p.slots[i], t)
    ensures FirstEnding(p.slots, t) == i
  {
  }

  // ----- one scheduling point -----

  datatype State = State(
    current: Option<Plan>, next: Plan, prev: Option<Plan>,
    slot: int, majorFrame: int, startExec: int, switchTime: int, nextAct: int, kthread: Option<Kthread>)

  /** What the plan decides `t` microseconds into a frame: who runs, and until when that stands. */
  datatype Decision = Decision(thread: Option<Kthread>, until: int)

  function Decide(p: Plan, t: int, ready: set<Kthread>): Decision {
    var i := FirstEnding(p.slots, t);
    if i == |p.slots| then Decision(None, p.majorFrame)
    else if t < p.slots[i].startExec then Decision(None, p.slots[i].startExec)
    else if p.slots[i].owner in ready then Decision(Some(p.slots[i].owner), p.slots[i].endExec)
    else Decision(None, if i + 1 < |p.slots| then p.slots[i + 1].startExec else p.majorFrame)
  }

  /** `make_plan_switch` */
  function SwitchPlan(s: State, now: int): State {
    if s.current == Some(s.next) then s
    else s.(prev := s.current, current := Some(s.next), switchTime := now, slot := -1, majorFrame := 0)
  }

  /** How many whole frames have passed since the current one started. */
  function FramesPassed(s: State, now: int): (k: nat)
    requires s.current.Some? && s.current.value.majorFrame > 0
    requires s.slot >= 0 ==> s.startExec <= now
  {
    if s.slot >= 0 then (now - s.startExec) / s.current.value.majorFrame else 0
  }

  /** Where the frame that contains `now` starts: frames missed meanwhile are skipped, a plan that
      has not run yet starts now. */
  function FrameStart(s: State, now: int): int
    requires s.current.Some? && s.current.value.majorFrame > 0
    requires s.slot >= 0 ==> s.startExec <= now
  {
    if s.slot >= 0 then s.startExec + FramesPassed(s, now) * s.current.value.majorFrame else now
  }

  /** What a scheduling point may rely on; every run keeps it. */
  predicate Sane(s: State, now: int) {
    && ValidPlan(s.next)
    && (s.current.Some? ==> ValidPlan(s.current.value))
    && (s.current.None? ==> s.slot < 0)
    && (if s.slot < 0 then s.majorFrame <= now else s.startExec <= now)
  }

  /** At the end of a frame a requested plan takes over; within a frame nothing changes. */
  function InForce(s: State, now: int): State {
    if s.majorFrame <= now then SwitchPlan(s, now) else s
  }

  function FrameNow(s: State, now: int): int
    requires Sane(s, now)
  {
    if s.majorFrame <= now then FrameStart(InForce(s, now), now) else s.startExec
  }

  /** The decision of the plan in force, in the frame that starts at `start`. */
  function Place(s: State, start: int, now: int, ready: set<Kthread>): State
    requires s.current.Some?
  {
    var p := s.current.value;
    var d := Decide(p, now - start, ready);
    s.(slot := FirstEnding(p.slots, now - start), startExec := start, majorFrame := start + p.majorFrame,
       nextAct := start + d.until, kthread := d.thread)
  }

  function Recompute(s: State, now: int, ready: set<Kthread>): State
    requires Sane(s, now)
  {
    Place(InForce(s, now), FrameNow(s, now), now, ready)
  }

  /** The state after a scheduling point: a decision stands until its `nextAct`. */
  function Scheduled(s: State, now: int, ready: set<Kthread>): State
    requires Sane(s, now)
  {
    if now < s.nextAct then s else Recompute(s, now, ready)
  }

  /** The thread a scheduling point returns; none means the idle thread. */
  function Chosen(s: State, now: int, ready: set<Kthread>): Option<Kthread>
    requires Sane(s, now)
  {
    if now < s.nextAct then (if s.kthread.Some? && s.kthread.value in ready then s.kthread else None)
    else Recompute(s, now, ready).kthread
  }

  // ----- runs -----

  /** The slot for which a thread was last chosen. */
  datatype Grant = Grant(plan: Plan, index: nat, frameStart: int)

  /** A state with its past: the last clock reading, when the current plan's first frame started,
      how many frames ago that was, and the last grant. */
  datatype Run = Run(state: State, clock: int, planStart: int, frames: nat, grant: Option<Grant>)

  datatype Event =
    | Schedule(now: int, ready: set<Kthread>)
    | Yield
    | Request(plan: Plan)
    | HealthMonitor(now: int, plan: Plan)

  ghost predicate GrantHolds(s: State, g: Grant, clock: int) {
    && ValidPlan(g.plan) && g.index < |g.plan.slots|
    && s.kthread == Some(g.plan.slots[g.index].owner)
    && g.frameStart + g.plan.slots[g.index].startExec <= clock
    && s.nextAct == g.frameStart + g.plan.slots[g.index].endExec
  }

  /** The slot pointer and the frame bounds fit the plan in force. */
  ghost predicate FrameHolds(s: State, clock: int)
    requires s.current.Some? && s.slot >= 0
  {
    var p := s.current.value;
    && s.majorFrame == s.startExec + p.majorFrame
    && s.startExec <= clock
    && s.slot <= |p.slots|
    && (forall i | 0 <= i < s.slot :: p.slots[i].endExec <= clock - s.startExec)
    && s.nextAct <= s.majorFrame
  }

  /** The invariant of every run. */
  ghost predicate Inv(r: Run) {
    var s := r.state;
    && ValidPlan(s.next)
    && 0 <= r.clock
    && (s.slot < 0 ==> s.slot == -1 && s.majorFrame == 0)
    && (s.current.None? ==> s.slot < 0)
    && (s.current.Some? ==> ValidPlan(s.current.value))
    && (s.slot >= 0 ==>
          && FrameHolds(s, r.clock)
          && s.startExec == r.planStart + r.frames * s.current.value.majorFrame)
    && (s.kthread.Some? && s.kthread.value.Vcpu? ==> r.grant.Some? && GrantHolds(s, r.grant.value, r.clock))
  }

  /** The clock never goes back, and plans come from the configuration. */
  predicate Possible(r: Run, e: Event) {
    match e
    case Schedule(now, _) => r.clock <= now
    case Yield => true
    case Request(p) => ValidPlan(p)
    case HealthMonitor(now, p) => r.clock <= now && ValidPlan(p)
  }

  /** A scheduling point at which the plan in force starts its first frame. */
  predicate StartsPlan(s: State, now: int) {
    s.majorFrame <= now && SwitchPlan(s, now).slot < 0
  }

  ghost function Step(r: Run, e: Event): Run
    requires Inv(r) && Possible(r, e)
  {
    match e
    case Schedule(now, ready) =>
      var s := Scheduled(r.state, now, ready);
      if now < r.state.nextAct then r.(clock := now)
      else Run(s, now,
               if StartsPlan(r.state, now) then now else r.planStart,
               if StartsPlan(r.state, now) then 0
               else if now < r.state.majorFrame then r.frames
               else r.frames + FramesPassed(r.state, now),
               if s.kthread.Some? then Some(Grant(s.current.value, s.slot, s.startExec)) else None)
    case Yield => r.(state := r.state.(kthread := Some(Idle)))
    case Request(p) => r.(state := r.state.(next := p))
    case HealthMonitor(now, p) => r.(state := SwitchPlan(r.state.(next := p), now), clock := now)
  }

  /** The frame found by skipping is the one that contains `now`. */
  lemma FrameContainsNow(s: State, now: int)
    requires s.current.Some? && ValidPlan(s.current.value) && (s.slot >= 0 ==> s.startExec <= now)
    ensures FrameStart(s, now) <= now < FrameStart(s, now) + s.current.value.majorFrame
  {
  }

  lemma FramesAdd(origin: int, frames: nat, more: nat, m: nat)
    ensures origin + frames * m + more * m == origin + (frames + more) * m
  {
  }

  /** A fresh decision stands until some time after now and at most until the end of the frame. */
  lemma DecideUntil(p: Plan, t: int, ready: set<Kthread>)
    requires ValidPlan(p) && 0 <= t < p.majorFrame
    ensures t < Decide(p, t, ready).until <= p.majorFrame
    ensures var d := Decide(p, t, ready); var i := FirstEnding(p.slots, t);
            d.thread.Some? ==> i < |p.slots| && Covers(p.slots[i], t) && d.thread.value == p.slots[i].owner
                               && d.until == p.slots[i].endExec
  {
  }

  /** How long a decision stands: no slot starts in between, and a chosen thread keeps the processor
      to the end of its slot. */
  lemma DecideStands(p: Plan, t: int, ready: set<Kthread>, j: nat)
    requires ValidPlan(p) && 0 <= t < p.majorFrame && j < |p.slots|
    ensures var d := Decide(p, t, ready);
            && !(t < p.slots[j].startExec < d.until)
            && (d.thread.Some? && Covers(p.slots[j], t) ==> d.until == p.slots[j].endExec)
  {
    if Covers(p.slots[j], t) {
      FirstEndingCovers(p, t, j);
    }
  }

  lemma FrameNowContains(s: State, now: int)
    requires Sane(s, now) && (s.slot >= 0 ==> FrameHolds(s, now))
    ensures var p := InForce(s, now).current.value;
            ValidPlan(p) && FrameNow(s, now) <= now < FrameNow(s, now) + p.majorFrame
  {
    if s.majorFrame <= now {
      FrameContainsNow(InForce(s, now), now);
    }
  }

  lemma PlaceHolds(s: State, start: int, now: int, ready: set<Kthread>)
    requires s.current.Some? && ValidPlan(s.current.value) && start <= now < start + s.current.value.majorFrame
    ensures var s' := Place(s, start, now, ready);
            && s'.slot >= 0 && FrameHolds(s', now) && now < s'.nextAct
            && (s'.kthread.Some? ==> GrantHolds(s', Grant(s'.current.value, s'.slot, s'.startExec), now))
  {
    DecideUntil(s.current.value, now - start, ready);
  }

  /** What a fresh decision looks like in the frame it falls into. */
  lemma RecomputeHolds(s: State, now: int, ready: set<Kthread>)
    requires Sane(s, now) && (s.slot >= 0 ==> FrameHolds(s, now))
    ensures var s' := Recompute(s, now, ready);
            && s'.slot >= 0 && FrameHolds(s', now) && now < s'.nextAct
            && s'.next == s.next && s'.current.Some? && ValidPlan(s'.current.value)
            && (s'.kthread.Some? ==> GrantHolds(s', Grant(s'.current.value, s'.slot, s'.startExec), now))
  {
    FrameNowContains(s, now);
    PlaceHolds(InForce(s, now), FrameNow(s, now), now, ready);
  }

  lemma RecomputeAligned(r: Run, now: int, ready: set<Kthread>)
    requires Inv(r) && r.clock <= now && r.state.nextAct <= now
    ensures var r' := Step(r, Schedule(now, ready));
            r'.state.current.Some? && r'.state.startExec == r'.planStart + r'.frames * r'.state.current.value.majorFrame
  {
    var s := r.state;
    if s.majorFrame <= now && !StartsPlan(s, now) {
      FramesAdd(r.planStart, r.frames, FramesPassed(s, now), s.current.value.majorFrame);
    }
  }

  lemma RecomputeInv(r: Run, now: int, ready: set<Kthread>)
    requires Inv(r) && r.clock <= now && r.state.nextAct <= now
    ensures Inv(Step(r, Schedule(now, ready)))
  {
    RecomputeHolds(r.state, now, ready);
    RecomputeAligned(r, now, ready);
  }

  /** Every step keeps the invariant. */
  lemma StepInv(r: Run, e: Event)
    requires Inv(r) && Possible(r, e)
    ensures Inv(Step(r, e))
  {
    if e.Schedule? && r.state.nextAct <= e.now {
      RecomputeInv(r, e.now, e.ready);
    }
  }

  /** The state that `init_sched_local` sets up. */
  function Initial(first: Plan): State {
    State(None, first, None, -1, 0, 0, 0, 0, None)
  }

  function Start(first: Plan): Run {
    Run(Initial(first), 0, 0, 0, None)
  }

  ghost predicate PossibleRun(r: Run, es: seq<Event>)
    requires Inv(r)
    decreases |es|
  {
    es == [] || (Possible(r, es[0]) && (StepInv(r, es[0]); PossibleRun(Step(r, es[0]), es[1..])))
  }

  /** The run after the events `es`. */
  ghost function After(r: Run, es: seq<Event>): Run
    requires Inv(r) && PossibleRun(r, es)
    decreases |es|
  {
    if es == [] then r else (StepInv(r, es[0]); After(Step(r, es[0]), es[1..]))
  }

  lemma {:induction false} RunInv(r: Run, es: seq<Event>)
    requires Inv(r) && PossibleRun(r, es)
    ensures Inv(After(r, es))
    decreases |es|
  {
    if es != [] {
      StepInv(r, es[0]);
      RunInv(Step(r, es[0]), es[1..]);
    }
  }

  // ----- what holds over every run -----

  /** Temporal isolation at one scheduling point: a partition thread that is returned, fresh or from
      the standing decision, is ready and owns the slot of its plan that covers the present. */
  lemma Isolation(r: Run, now: int, ready: set<Kthread>)
    requires Inv(r) && r.clock <= now
    requires var c := Chosen(r.state, now, ready); c.Some? && c.value.Vcpu?
    ensures var c := Chosen(r.state, now, ready).value;
            var g := Step(r, Schedule(now, ready)).grant;
            g.Some? && c in ready && Owns(g.value, c, now)
  {
    if r.state.nextAct <= now {
      RecomputeHolds(r.state, now, ready);
      DecideReady(InForce(r.state, now).current.value, now - FrameNow(r.state, now), ready);
    }
  }

  /** `g` is for a slot that belongs to `k` and covers the time `now`. */
  ghost predicate Owns(g: Grant, k: Kthread, now: int) {
    && ValidPlan(g.plan) && g.index < |g.plan.slots|
    && k == g.plan.slots[g.index].owner
    && Covers(g.plan.slots[g.index], now - g.frameStart)
  }

  /** No other slot of the plan covers that time. */
  lemma OwnsAlone(g: Grant, k: Kthread, now: int, j: nat)
    requires Owns(g, k, now) && j < |g.plan.slots| && Covers(g.plan.slots[j], now - g.frameStart)
    ensures j == g.index
  {
    FirstEndingCovers(g.plan, now - g.frameStart, j);
    FirstEndingCovers(g.plan, now - g.frameStart, g.index);
  }

  lemma DecideReady(p: Plan, t: int, ready: set<Kthread>)
    ensures var d := Decide(p, t, ready); d.thread.Some? ==> d.thread.value in ready
  {
  }

  /** ... and so over every run, whatever events it consists of. */
  lemma TemporalIsolation(first: Plan, es: seq<Event>, now: int, ready: set<Kthread>)
    requires ValidPlan(first) && PossibleRun(Start(first), es)
    requires After(Start(first), es).clock <= now
    ensures var r := After(Start(first), es);
            && Inv(r)
            && var c := Chosen(r.state, now, ready);
               c.Some? && c.value.Vcpu? ==>
                 var g := Step(r, Schedule(now, ready)).grant;
                 g.Some? && c.value in ready && Owns(g.value, c.value, now)
  {
    RunInv(Start(first), es);
    var r := After(Start(first), es);
    var c := Chosen(r.state, now, ready);
    if c.Some? && c.value.Vcpu? {
      Isolation(r, now, ready);
    }
  }

  lemma DecideOwner(p: Plan, t: int, ready: set<Kthread>, i: nat)
    requires ValidPlan(p) && i < |p.slots| && Covers(p.slots[i], t) && p.slots[i].owner in ready
    ensures Decide(p, t, ready).thread == Some(p.slots[i].owner)
  {
    FirstEndingCovers(p, t, i);
  }

  lemma PlaceOwner(s: State, start: int, now: int, ready: set<Kthread>, i: nat)
    requires s.current.Some? && ValidPlan(s.current.value) && i < |s.current.value.slots|
    requires Covers(s.current.value.slots[i], now - start) && s.current.value.slots[i].owner in ready
    ensures Place(s, start, now, ready).kthread == Some(s.current.value.slots[i].owner)
  {
    DecideOwner(s.current.value, now - start, ready, i);
  }

  lemma PlanValid(s: State, now: int)
    requires Sane(s, now)
    ensures var p := InForce(s, now).current; p.Some? && ValidPlan(p.value)
  {
  }

  /** The processor is given away whenever it can be: at a fresh decision, a ready thread whose slot
      covers the present is chosen. */
  lemma SlotOwnerRuns(r: Run, now: int, ready: set<Kthread>, i: nat)
    requires Inv(r) && r.clock <= now && r.state.nextAct <= now
    requires var p := InForce(r.state, now).current.value;
             i < |p.slots| && Covers(p.slots[i], now - FrameNow(r.state, now)) && p.slots[i].owner in ready
    ensures var p := InForce(r.state, now).current.value;
            Chosen(r.state, now, ready) == Some(p.slots[i].owner)
  {
    StepRecomputes(r, now, ready);
    PlanValid(r.state, now);
    PlaceOwner(InForce(r.state, now), FrameNow(r.state, now), now, ready, i);
  }

  /** The assertion in the code: every fresh decision moves `next_act` forward, past the present and
      not past the end of the frame; and the frame lies a whole number of frames after the start of
      the plan, however many were missed. */
  lemma NextActAdvances(r: Run, now: int, ready: set<Kthread>)
    requires Inv(r) && r.clock <= now && r.state.nextAct <= now
    ensures var r' := Step(r, Schedule(now, ready));
            var p := r'.state.current;
            && r.state.nextAct <= now < r'.state.nextAct <= r'.state.majorFrame
            && p.Some? && r'.state.startExec == r'.planStart + r'.frames * p.value.majorFrame
            && 0 <= now - r'.state.startExec < p.value.majorFrame < U32
            && r'.state.slot == FirstEnding(p.value.slots, now - r'.state.startExec)
  {
    RecomputeHolds(r.state, now, ready);
    RecomputeAligned(r, now, ready);
    FrameNowContains(r.state, now);
  }

  // ----- no slot is slept through -----

  /** No slot starts strictly inside the standing decision. */
  ghost predicate Awake(s: State, clock: int) {
    s.current.Some? && s.slot >= 0 ==>
      forall j | 0 <= j < |s.current.value.slots| ::
        !(clock < s.startExec + s.current.value.slots[j].startExec < s.nextAct)
  }

  lemma StepAwake(r: Run, e: Event)
    requires Inv(r) && Possible(r, e) && Awake(r.state, r.clock)
    ensures Awake(Step(r, e).state, Step(r, e).clock)
  {
    if e.Schedule? && r.state.nextAct <= e.now {
      FreshAwake(r, e.now, e.ready);
    }
  }

  /** The next scheduling point is the end of the slot that covers the present, if its owner was
      chosen; while idling it is where a slot starts or the frame ends. */
  ghost predicate EndsAtSlot(s: State, now: int)
    requires s.current.Some?
  {
    var p := s.current.value;
    if s.kthread.Some?
    then forall j | 0 <= j < |p.slots| && Covers(p.slots[j], now - s.startExec) :: s.nextAct == s.startExec + p.slots[j].endExec
    else s.nextAct == s.startExec + p.majorFrame
         || exists i :: 0 <= i < |p.slots| && s.nextAct == s.startExec + p.slots[i].startExec
  }

  lemma PlaceAwake(s: State, start: int, now: int, ready: set<Kthread>)
    requires s.current.Some? && ValidPlan(s.current.value) && start <= now < start + s.current.value.majorFrame
    ensures Awake(Place(s, start, now, ready), now)
  {
    var p, t, s' := s.current.value, now - start, Place(s, start, now, ready);
    var until := Decide(p, t, ready).until;
    assert s'.current == Some(p) && s'.startExec == start && s'.nextAct == start + until;
    forall j | 0 <= j < |p.slots| ensures !(t < p.slots[j].startExec < until) {
      DecideStands(p, t, ready, j);
    }
  }

  lemma PlaceEnds(s: State, start: int, now: int, ready: set<Kthread>)
    requires s.current.Some? && ValidPlan(s.current.value) && start <= now < start + s.current.value.majorFrame
    ensures EndsAtSlot(Place(s, start, now, ready), now)
  {
    var p, d := s.current.value, Decide(s.current.value, now - start, ready);
    if d.thread.Some? {
      forall j | 0 <= j < |p.slots| && Covers(p.slots[j], now - start) ensures d.until == p.slots[j].endExec {
        DecideStands(p, now - start, ready, j);
      }
    } else {
      DecideIdles(p, now - start, ready);
    }
  }

  /** Every fresh decision ends there, and no slot starts before it does. */
  lemma FreshAwake(r: Run, now: int, ready: set<Kthread>)
    requires Inv(r) && r.clock <= now && r.state.nextAct <= now
    ensures var s := Step(r, Schedule(now, ready)).state; s.current.Some? && Awake(s, now) && EndsAtSlot(s, now)
  {
    FrameNowContains(r.state, now);
    StepRecomputes(r, now, ready);
    PlaceAwake(InForce(r.state, now), FrameNow(r.state, now), now, ready);
    PlaceEnds(InForce(r.state, now), FrameNow(r.state, now), now, ready);
  }

  lemma DecideIdles(p: Plan, t: int, ready: set<Kthread>)
    requires ValidPlan(p) && 0 <= t < p.majorFrame
    ensures var d := Decide(p, t, ready);
            d.thread.None? ==> d.until == p.majorFrame || exists i :: 0 <= i < |p.slots| && d.until == p.slots[i].startExec
  {
  }

  /** Over every run from the start of the system. */
  lemma {:induction false} RunAwake(r: Run, es: seq<Event>)
    requires Inv(r) && PossibleRun(r, es) && Awake(r.state, r.clock)
    ensures Awake(After(r, es).state, After(r, es).clock)
    decreases |es|
  {
    if es != [] {
      StepInv(r, es[0]);
      StepAwake(r, es[0]);
      RunAwake(Step(r, es[0]), es[1..]);
    }
  }

  /** The plan `p` is in force, or is to go on, for the frame that starts at `frame`; the decision that
      stands ends no later than slot `j` starts in that frame. */
  ghost predicate Ahead(r: Run, p: Plan, frame: int, j: nat)
    requires j < |p.slots|
  {
    var s := r.state;
    && s.current == Some(p) && s.slot >= 0
    && r.clock <= s.nextAct <= frame + p.slots[j].startExec
    && (s.startExec == frame || (s.majorFrame == frame && s.next == p))
  }

  /** Slot `j` of that frame has begun, and its owner has the processor. */
  ghost predicate Serving(r: Run, p: Plan, frame: int, j: nat)
    requires j < |p.slots|
  {
    && r.state.kthread == Some(p.slots[j].owner)
    && frame + p.slots[j].startExec <= r.clock < r.state.nextAct == frame + p.slots[j].endExec
  }

  /** What is assumed of the events up to the end of slot `j`: scheduling points come no later than
      the standing decision ends, the owner of the slot is ready throughout it and does not yield
      in it, and no other plan is to take over before the frame. */
  ghost predicate Orderly(r: Run, e: Event, p: Plan, frame: int, j: nat)
    requires j < |p.slots|
  {
    match e
    case Schedule(now, ready) =>
      && now <= r.state.nextAct && now < frame + p.slots[j].endExec
      && (frame + p.slots[j].startExec <= now ==> p.slots[j].owner in ready)
    case Yield => r.clock < frame + p.slots[j].startExec
    case Request(q) => q == p || r.state.startExec == frame
    case HealthMonitor(_, _) => false
  }

  ghost predicate OrderlyRun(r: Run, es: seq<Event>, p: Plan, frame: int, j: nat)
    requires Inv(r) && j < |p.slots|
    decreases |es|
  {
    es == [] || (Possible(r, es[0]) && Orderly(r, es[0], p, frame, j) &&
                 (StepInv(r, es[0]); OrderlyRun(Step(r, es[0]), es[1..], p, frame, j)))
  }

  /** Every scheduling point from `start` on returns `k`. */
  ghost predicate Returns(r: Run, es: seq<Event>, start: int, k: Kthread)
    requires Inv(r)
    decreases |es|
  {
    es == [] || (Possible(r, es[0]) &&
                 (es[0].Schedule? && start <= es[0].now ==> Chosen(r.state, es[0].now, es[0].ready) == Some(k)) &&
                 (StepInv(r, es[0]); Returns(Step(r, es[0]), es[1..], start, k)))
  }

  /** There is a scheduling point at exactly that time. */
  ghost predicate PointAt(es: seq<Event>, time: int) {
    exists i :: 0 <= i < |es| && es[i].Schedule? && es[i].now == time
  }

  lemma PointLater(es: seq<Event>, time: int)
    requires es != []
    ensures PointAt(es[1..], time) || (es[0].Schedule? && es[0].now == time) ==> PointAt(es, time)
  {
    if PointAt(es[1..], time) {
      var i :| 0 <= i < |es[1..]| && es[1..][i].Schedule? && es[1..][i].now == time;
      assert es[i + 1] == es[1..][i];
    }
  }

  /** One event before the slot, or the one at which the slot starts. */
  lemma OrderlyStep(r: Run, e: Event, p: Plan, frame: int, j: nat)
    requires Inv(r) && j < |p.slots| && Ahead(r, p, frame, j)
    requires Possible(r, e) && Orderly(r, e, p, frame, j)
    ensures var r' := Step(r, e); var start := frame + p.slots[j].startExec;
            if e.Schedule? && e.now == start
            then Serving(r', p, frame, j) && Chosen(r.state, e.now, e.ready) == Some(p.slots[j].owner)
            else Ahead(r', p, frame, j) && (e.Schedule? ==> e.now < start)
  {
    if e.Schedule? && r.state.nextAct <= e.now {
      OrderlyFresh(r, e.now, e.ready, p, frame, j);
    }
  }

  lemma OrderlyFresh(r: Run, now: int, ready: set<Kthread>, p: Plan, frame: int, j: nat)
    requires Inv(r) && j < |p.slots| && Ahead(r, p, frame, j)
    requires r.clock <= now == r.state.nextAct && Orderly(r, Schedule(now, ready), p, frame, j)
    ensures var r' := Step(r, Schedule(now, ready)); var start := frame + p.slots[j].startExec;
            if now == start
            then Serving(r', p, frame, j) && Chosen(r.state, now, ready) == Some(p.slots[j].owner)
            else Ahead(r', p, frame, j) && now < start
  {
    FrameFound(r, now, p, frame);
    FreshState(r, now, ready);
    FreshAwake(r, now, ready);
    if now == frame + p.slots[j].startExec {
      SlotOwnerRuns(r, now, ready, j);
    }
  }

  /** What a fresh decision leaves behind. */
  lemma FreshState(r: Run, now: int, ready: set<Kthread>)
    requires Inv(r) && r.clock <= now && r.state.nextAct <= now
    ensures var r' := Step(r, Schedule(now, ready)); var s' := r'.state;
            && r'.clock == now < s'.nextAct <= s'.majorFrame && s'.slot >= 0 && s'.next == r.state.next
            && s'.current == InForce(r.state, now).current && s'.current.Some?
            && s'.startExec == FrameNow(r.state, now) && s'.majorFrame == s'.startExec + s'.current.value.majorFrame
            && Chosen(r.state, now, ready) == s'.kthread
  {
    RecomputeHolds(r.state, now, ready);
    StepRecomputes(r, now, ready);
  }

  /** A scheduling point at the end of a frame starts the next one there and then. */
  lemma FrameFound(r: Run, now: int, p: Plan, frame: int)
    requires Inv(r) && r.state.current == Some(p) && r.state.slot >= 0 && r.state.startExec <= now <= r.state.majorFrame
    requires r.state.startExec == frame || (r.state.majorFrame == frame && r.state.next == p)
    requires r.state.startExec == frame ==> now < r.state.majorFrame
    ensures InForce(r.state, now).current == Some(p)
    ensures FrameNow(r.state, now) == if now == r.state.majorFrame then r.state.majorFrame else r.state.startExec
  {
    if now == r.state.majorFrame {
      OneFrame(p.majorFrame);
      assert InForce(r.state, now) == r.state && now - r.state.startExec == p.majorFrame;
      assert FramesPassed(r.state, now) == 1;
    }
  }

  lemma OneFrame(m: int)
    requires m > 0
    ensures m / m == 1 && 1 * m == m
  {
  }

  /** If scheduling points come when decisions end, a thread that is ready throughout its slot has the
      processor from the start of the slot to its end: no scheduling point in the slot returns any
      other thread, and one of them is exactly at its start. */
  lemma {:induction false} SlotServed(r: Run, es: seq<Event>, p: Plan, frame: int, j: nat)
    requires Inv(r) && j < |p.slots| && (Ahead(r, p, frame, j) || Serving(r, p, frame, j))
    requires OrderlyRun(r, es, p, frame, j)
    ensures Returns(r, es, frame + p.slots[j].startExec, p.slots[j].owner)
    ensures PossibleRun(r, es)
    ensures Ahead(r, p, frame, j) && After(r, es).clock > frame + p.slots[j].startExec ==>
              PointAt(es, frame + p.slots[j].startExec)
    decreases |es|
  {
    if es != [] {
      var start := frame + p.slots[j].startExec;
      StepInv(r, es[0]);
      if Ahead(r, p, frame, j) {
        OrderlyStep(r, es[0], p, frame, j);
      }
      SlotServed(Step(r, es[0]), es[1..], p, frame, j);
      PointLater(es, start);
    }
  }

  // ----- standing decisions and plan switches -----

  /** A requested plan takes over at the end of the frame and not before: the first fresh decision
      from then on is made by it, in a frame that starts there and then. */
  lemma RequestTakesOver(r: Run, plan: Plan, now: int, ready: set<Kthread>)
    requires Inv(r) && Possible(r, Request(plan)) && r.clock <= now && r.state.nextAct <= now
    ensures var s, s' := r.state, Step(Step(r, Request(plan)), Schedule(now, ready)).state;
            && s'.next == plan
            && (now < s.majorFrame ==> s'.current == s.current && s'.startExec == s.startExec && s'.prev == s.prev)
            && (s.majorFrame <= now ==> s'.current == Some(plan))
            && (s.majorFrame <= now && s.current != Some(plan) ==>
                  s'.startExec == now && s'.switchTime == now && s'.prev == s.current)
  {
  }

  /** Events that leave a standing decision alone. */
  predicate Quiet(e: Event, until: int) {
    match e
    case Schedule(now, _) => now < until
    case Yield => true
    case _ => false
  }

  lemma {:induction false} QuietKeepsState(r: Run, es: seq<Event>)
    requires Inv(r) && PossibleRun(r, es) && forall e | e in es :: Quiet(e, r.state.nextAct)
    ensures var s := After(r, es).state; s == r.state.(kthread := s.kthread)
    decreases |es|
  {
    if es != [] {
      StepInv(r, es[0]);
      assert es[0] in es;
      var s := Step(r, es[0]).state;
      assert s == r.state.(kthread := s.kthread);
      QuietKeepsState(Step(r, es[0]), es[1..]);
    }
  }

  /** A plan that the health monitor switches to directly leaves the standing decision in place, and
      takes over, from the beginning of its frame, at the first scheduling point at or after the old
      `next_act`. */
  lemma HealthMonitorTakesOver(r: Run, plan: Plan, at: int, es: seq<Event>, now: int, ready: set<Kthread>)
    requires Inv(r) && Possible(r, HealthMonitor(at, plan)) && r.state.current != Some(plan)
    requires Inv(Step(r, HealthMonitor(at, plan))) && PossibleRun(Step(r, HealthMonitor(at, plan)), es)
    requires forall e | e in es :: Quiet(e, r.state.nextAct)
    requires var r1 := After(Step(r, HealthMonitor(at, plan)), es); r1.clock <= now && r.state.nextAct <= now
    ensures var r1 := After(Step(r, HealthMonitor(at, plan)), es);
            && Inv(r1)
            && var s := Step(r1, Schedule(now, ready)).state;
               s.current == Some(plan) && s.startExec == now && s.slot == FirstEnding(plan.slots, 0)
  {
    var r0 := Step(r, HealthMonitor(at, plan));
    QuietKeepsState(r0, es);
    RunInv(r0, es);
  }

  // ----- the scheduler as the kernel runs it -----

  class SchedData {
    var current: Option<Plan>
    var next: Plan
    var prev: Option<Plan>
    var slot: int
    var majorFrame: int
    var startExec: int
    var switchTime: int
    var nextAct: int
    var kthread: Option<Kthread>

    function Abs(): State
      reads this
    {
      State(current, next, prev, slot, majorFrame, startExec, switchTime, nextAct, kthread)
    }

    /** `init_sched_local` */
    constructor (first: Plan)
      ensures Abs() == Initial(first)
    {
      current, next, prev := None, first, None;
      slot, majorFrame, startExec, switchTime, nextAct := -1, 0, 0, 0, 0;
      kthread := None;
    }

    /** `make_plan_switch` */
    method MakePlanSwitch(now: int)
      modifies this
      ensures Abs() == SwitchPlan(old(Abs()), now)
    {
      if current != Some(next) {
        prev := current;
        current := Some(next);
        switchTime := now;
        slot := -1;
        majorFrame := 0;
      }
    }

    /** The part of `switch_sched_plan` that concerns this processor. */
    method SwitchSchedPlan(plan: Plan) returns (oldPlan: Option<Plan>)
      modifies this
      ensures Abs() == old(Abs()).(next := plan) && oldPlan == old(current)
    {
      oldPlan := current;
      next := plan;
    }

    /** The entry of a new major frame in `get_ready_kthread`. */
    method EnterFrame(now: int)
      requires Sane(Abs(), now) && majorFrame <= now
      requires slot >= 0 ==> FrameHolds(Abs(), now)
      modifies this
      ensures Abs() == var s := InForce(old(Abs()), now); var start := FrameNow(old(Abs()), now);
                       s.(startExec := start, majorFrame := start + s.current.value.majorFrame, slot := 0)
    {
      MakePlanSwitch(now);
      var plan := current.value;
      if slot >= 0 {
        ghost var first, k := startExec, 0;
        while majorFrame <= now
          invariant k >= 0 && startExec == first + k * plan.majorFrame
          invariant majorFrame == startExec + plan.majorFrame && startExec <= now
          invariant Abs() == InForce(old(Abs()), now).(startExec := startExec, majorFrame := majorFrame)
          decreases now - majorFrame
        {
          startExec := majorFrame;
          majorFrame := majorFrame + plan.majorFrame;
          k := k + 1;
        }
        DivModUnique(now - first, plan.majorFrame, k, now - startExec);
      } else {
        startExec := now;
        majorFrame := plan.majorFrame + startExec;
      }
      slot := 0;
    }

    /** The search for the slot, from where the last one stopped. */
    method AdvanceSlot(plan: Plan, t: int)
      requires 0 <= slot <= |plan.slots| && forall i | 0 <= i < slot :: plan.slots[i].endExec <= t
      modifies this
      ensures Abs() == old(Abs()).(slot := FirstEnding(plan.slots, t))
    {
      while slot < |plan.slots| && t >= plan.slots[slot].endExec
        invariant 0 <= slot <= |plan.slots|
        invariant forall i | 0 <= i < slot :: plan.slots[i].endExec <= t
        invariant Abs() == old(Abs()).(slot := slot)
        decreases |plan.slots| - slot
      {
        slot := slot + 1;
      }
      FirstEndingUnique(plan.slots, t, slot);
    }

    /** The choice the current slot allows. */
    method Choose(plan: Plan, t: int, ready: set<Kthread>) returns (k: Option<Kthread>, nextTime: int)
      requires slot == FirstEnding(plan.slots, t)
      ensures Decision(k, nextTime) == Decide(plan, t, ready)
    {
      k, nextTime := None, plan.majorFrame;
      if slot < |plan.slots| {
        if t >= plan.slots[slot].startExec {
          if plan.slots[slot].owner in ready {
            k := Some(plan.slots[slot].owner);
            nextTime := plan.slots[slot].endExec;
          } else if slot + 1 < |plan.slots| {
            nextTime := plan.slots[slot + 1].startExec;
          }
        } else {
          nextTime := plan.slots[slot].startExec;
        }
      }
    }

    /** The frame part of `get_ready_kthread`: enters a new frame if the last one is over. */
    method FindFrame(now: int)
      requires Sane(Abs(), now) && (slot >= 0 ==> FrameHolds(Abs(), now))
      modifies this
      ensures Abs() == InForce(old(Abs()), now).(startExec := startExec, majorFrame := majorFrame, slot := slot)
      ensures current.Some? && ValidPlan(current.value)
      ensures startExec == FrameNow(old(Abs()), now) && majorFrame == startExec + current.value.majorFrame
      ensures startExec <= now < majorFrame
      ensures 0 <= slot <= |current.value.slots|
      ensures forall i | 0 <= i < slot :: current.value.slots[i].endExec <= now - startExec
    {
      FrameNowContains(Abs(), now);
      if majorFrame <= now {
        EnterFrame(now);
      }
    }

    /** How far into the frame `now` is; the offset is kept in 32 bits, which always suffices. */
    method Offset(now: int) returns (t: int)
      requires current.Some? && ValidPlan(current.value)
      requires majorFrame == startExec + current.value.majorFrame && startExec <= now < majorFrame
      ensures t == now - startExec
    {
      t := (now - startExec) % U32;
    }

    /** The decision part of `get_ready_kthread`, within the frame. */
    method DecideNow(now: int, ready: set<Kthread>) returns (k: Option<Kthread>)
      requires current.Some? && ValidPlan(current.value) && nextAct <= now
      requires majorFrame == startExec + current.value.majorFrame && startExec <= now < majorFrame
      requires 0 <= slot <= |current.value.slots|
      requires forall i | 0 <= i < slot :: current.value.slots[i].endExec <= now - startExec
      modifies this
      ensures Abs() == Place(old(Abs()), old(startExec), now, ready) && k == kthread
    {
      PlaceWithin(Abs(), now, ready);
      var plan := current.value;
      var t := Offset(now);
      AdvanceSlot(plan, t);
      var nextTime;
      k, nextTime := Choose(plan, t, ready);
      DecideUntil(plan, t, ready);
      assert nextAct < nextTime + startExec;
      nextAct := nextTime + startExec;
      kthread := k;
    }

    /** `get_ready_kthread`: what the bookkeeping finds is what a search from scratch finds. */
    method GetReadyKthread(now: int, ready: set<Kthread>, ghost r: Run) returns (k: Option<Kthread>)
      requires Inv(r) && r.state == Abs() && r.clock <= now
      modifies this
      ensures Abs() == Step(r, Schedule(now, ready)).state
      ensures k == Chosen(r.state, now, ready)
    {
      if nextAct > now {
        return if kthread.Some? && kthread.value in ready then kthread else None;
      }
      ghost var s := Abs();
      InvIsSane(r, now);
      FindFrame(now);
      PlaceOverrides(InForce(s, now), startExec, majorFrame, slot, FrameNow(s, now), now, ready);
      k := DecideNow(now, ready);
      StepRecomputes(r, now, ready);
    }
  }

  // ----- schedule() -----

  class LocalProcessor {
    const data: SchedData
    var running: Kthread
    var enabled: bool
    var irqInProgress: bool
    var schedPending: bool

    constructor (first: Plan)
      ensures fresh(data) && data.Abs() == Initial(first) && running == Idle && !schedPending
    {
      data := new SchedData(first);
      running, enabled, irqInProgress, schedPending := Idle, false, false, false;
    }

    /** `schedule`: while an interrupt is being handled the decision is put off, otherwise the
        processor goes to the chosen thread, or to the idle thread if there is none. */
    method Schedule(now: int, ready: set<Kthread>, ghost r: Run)
      requires Inv(r) && r.state == data.Abs() && r.clock <= now
      modifies this, data
      ensures enabled == old(enabled) && irqInProgress == old(irqInProgress)
      ensures schedPending == (enabled && irqInProgress)
      ensures if enabled && !irqInProgress
              then data.Abs() == Step(r, Event.Schedule(now, ready)).state
                   && running == match Chosen(r.state, now, ready) { case Some(k) => k case None => Idle }
              else data.Abs() == r.state && running == old(running)
    {
      if !enabled {
        schedPending := false;
        return;
      }
      if irqInProgress {
        schedPending := true;
        return;
      }
      schedPending := false;
      var k := data.GetReadyKthread(now, ready, r);
      var chosen := if k.Some? then k.value else Idle;
      if chosen != running {
        running := chosen;
      }
    }

    /** `sched_yield`: the idle thread replaces the standing decision until the next one. */
    method YieldNow(now: int, ready: set<Kthread>, ghost r: Run)
      requires Inv(r) && r.state == data.Abs() && r.clock <= now
      requires enabled && !irqInProgress
      modifies this, data
      ensures data.Abs() == Step(Step(r, Yield), Event.Schedule(now, ready)).state
      ensures now < old(data.nextAct) ==> running == Idle
    {
      data.kthread := Some(Idle);
      StepInv(r, Yield);
      Schedule(now, ready, Step(r, Yield));
    }

    /** The health monitor's switch to maintenance: request, switch at once, schedule. */
    method SwitchToMaintenance(plan: Plan, now: int, ready: set<Kthread>, ghost r: Run)
      requires Inv(r) && r.state == data.Abs() && r.clock <= now && ValidPlan(plan)
      requires enabled && !irqInProgress
      modifies this, data
      ensures data.Abs() == Step(Step(r, HealthMonitor(now, plan)), Event.Schedule(now, ready)).state
    {
      var oldPlan := data.SwitchSchedPlan(plan);
      data.MakePlanSwitch(now);
      StepInv(r, HealthMonitor(now, plan));
      Schedule(now, ready, Step(r, HealthMonitor(now, plan)));
    }
  }

  lemma InvIsSane(r: Run, now: int)
    requires Inv(r) && r.clock <= now
    ensures Sane(r.state, now) && (r.state.slot >= 0 ==> FrameHolds(r.state, now))
  {
  }

  lemma StepRecomputes(r: Run, now: int, ready: set<Kthread>)
    requires Inv(r) && r.clock <= now && r.state.nextAct <= now
    ensures Step(r, Schedule(now, ready)).state == Recompute(r.state, now, ready)
    ensures Chosen(r.state, now, ready) == Recompute(r.state, now, ready).kthread
  {
  }

  lemma PlaceOverrides(s: State, a: int, b: int, c: int, start: int, now: int, ready: set<Kthread>)
    requires s.current.Some?
    ensures Place(s.(startExec := a, majorFrame := b, slot := c), start, now, ready) == Place(s, start, now, ready)
  {
  }

  lemma PlaceWithin(s: State, now: int, ready: set<Kthread>)
    requires s.current.Some? && s.majorFrame == s.startExec + s.current.value.majorFrame
    ensures var p, t := s.current.value, now - s.startExec;
            Place(s, s.startExec, now, ready) == s.(slot := FirstEnding(p.slots, t),
              nextAct := s.startExec + Decide(p, t, ready).until, kthread := Decide(p, t, ready).thread)
  {
  }

  lemma FirstEndingUnique(slots: seq<Slot>, t: int, i: nat)
    requires i <= |slots| && (forall j | 0 <= j < i :: slots[j].endExec <= t)
    requires i < |slots| ==> t < slots[i].endExec
    ensures FirstEnding(slots, t) == i
  {
  }
}
