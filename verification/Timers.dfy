/** Kernel timers multiplexed onto one hardware timer (core/kernel/ktimer.c).  Times are in
    microseconds; the clock does not move while one call is under way. */
module Timers {
  import opened Arithmetic

  // ----- one timer -----

  datatype Timer = Timer(value: int, interval: int, armed: bool, fired: nat)

  /** The largest time there is; it stands for "never". */
  const MAX_TIME: int := 0x7fff_ffff_ffff_ffff

  predicate Expired(t: Timer, now: int) {
    t.armed && t.value <= now
  }

  /** What one traversal does to a timer: an expired one fires; if it is periodic it moves to the
      first of its periods after the present, otherwise it is disarmed. */
  function Advanced(t: Timer, now: int): Timer {
    if !Expired(t, now) then t
    else if t.interval > 0 then
      t.(value := t.value + ((now - t.value) / t.interval + 1) * t.interval, fired := t.fired + 1)
    else t.(armed := false, fired := t.fired + 1)
  }

  function Earliest(q: seq<Timer>): (m: int)
    ensures m <= MAX_TIME
    ensures forall t | t in q && t.armed :: m <= t.value
    ensures m < MAX_TIME ==> exists t :: t in q && t.armed && t.value == m
  {
    if q == [] then MAX_TIME
    else
      var m := Earliest(q[1..]);
      if q[0].armed && q[0].value < m then q[0].value else m
  }

  /** The time of an expired periodic timer moves by whole periods, past the present and no further
      than the first of them. */
  lemma AdvancedIsLeast(t: Timer, now: int)
    requires Expired(t, now) && t.interval > 0
    ensures var a := Advanced(t, now);
            && a.armed && a.fired == t.fired + 1
            && (exists k: nat :: k > 0 && a.value == t.value + k * t.interval)
            && now < a.value <= now + t.interval
  {
    var k := (now - t.value) / t.interval + 1;
    assert Advanced(t, now).value == t.value + k * t.interval;
    assert now - t.value == (k - 1) * t.interval + (now - t.value) % t.interval;
    assert k * t.interval == (k - 1) * t.interval + t.interval;
  }

  /** What servicing must do to a timer, field by field: one that is not due stays as it is; one that
      is due fires once and, if it is periodic, stays armed for the first of its periods after the
      present, and otherwise ends up disarmed. */
  ghost predicate Serviced(t: Timer, t': Timer, now: int) {
    if !t.armed || now < t.value then t' == t
    else
      && t'.fired == t.fired + 1 && t'.interval == t.interval
      && (t.interval <= 0 ==> !t'.armed && t'.value == t.value)
      && (t.interval > 0 ==>
            && t'.armed && now < t'.value <= now + t.interval
            && exists k: nat :: k > 0 && t'.value == t.value + k * t.interval)
  }

  /** A traversal does just that. */
  lemma AdvancedIsServiced(t: Timer, now: int)
    ensures Serviced(t, Advanced(t, now), now)
  {
    if Expired(t, now) && t.interval > 0 {
      AdvancedIsLeast(t, now);
    }
  }

  ghost predicate AllServiced(q: seq<Timer>, q': seq<Timer>, now: int) {
    |q'| == |q| && forall i | 0 <= i < |q| :: Serviced(q[i], q'[i], now)
  }

  lemma AllAdvancedServiced(q: seq<Timer>, q': seq<Timer>, now: int)
    requires AllAdvanced(q, q', now)
    ensures AllServiced(q, q', now)
  {
    forall i | 0 <= i < |q| ensures Serviced(q[i], q'[i], now) {
      AdvancedIsServiced(q[i], now);
    }
  }

  /** The first multiple that passes `now` is the one that division finds. */
  lemma FirstPast(v: int, interval: int, k: nat, now: int)
    requires interval > 0 && v <= now && k >= 1
    requires v + (k - 1) * interval <= now < v + k * interval
    ensures k == (now - v) / interval + 1
  {
    assert k * interval == (k - 1) * interval + interval;
    DivModUnique(now - v, interval, k - 1, now - v - (k - 1) * interval);
  }

  // ----- traverse_ktimer_queue -----

  ghost predicate AllAdvanced(q: seq<Timer>, q': seq<Timer>, now: int) {
    |q'| == |q| && forall i | 0 <= i < |q| :: q'[i] == Advanced(q[i], now)
  }

  /** The inner loop: adds the interval until the time lies after `now`. */
  method AddIntervals(t: Timer, now: int) returns (value: int)
    requires Expired(t, now) && t.interval > 0
    ensures value == Advanced(t, now).value
  {
    value := t.value + t.interval;
    ghost var k := 1;
    while value <= now
      invariant k >= 1 && value == t.value + k * t.interval
      invariant t.value + (k - 1) * t.interval <= now
      decreases now - value
    {
      value := value + t.interval;
      k := k + 1;
      assert t.value + (k - 1) * t.interval + t.interval == t.value + k * t.interval;
    }
    FirstPast(t.value, t.interval, k, now);
  }

  /** The body of the loop over a queue. */
  method Visit(t: Timer, now: int) returns (t': Timer)
    ensures t' == Advanced(t, now) && Serviced(t, t', now)
    ensures t'.armed ==> now < t'.value
  {
    AdvancedIsServiced(t, now);
    t' := t;
    if t.armed && t.value <= now {
      t' := t'.(fired := t.fired + 1);
      if t.interval > 0 {
        AdvancedIsLeast(t, now);
        var value := AddIntervals(t, now);
        t' := t'.(value := value);
      } else {
        t' := t'.(armed := false);
      }
    }
  }

  ghost predicate AllAfter(q: seq<Timer>, now: int) {
    forall i | 0 <= i < |q| && q[i].armed :: now < q[i].value
  }

  /** Fires what has expired and finds the earliest time left. */
  method TraverseQueue(q: seq<Timer>, now: int) returns (q': seq<Timer>, nextAct: int)
    ensures AllAdvanced(q, q', now) && AllServiced(q, q', now)
    ensures AllAfter(q', now)
    ensures nextAct == Earliest(q')
  {
    q', nextAct := [], MAX_TIME;
    var i := 0;
    while i < |q|
      invariant 0 <= i <= |q|
      invariant AllAdvanced(q[..i], q', now) && AllAfter(q', now)
      invariant nextAct == Earliest(q')
    {
      var t := Visit(q[i], now);
      if t.armed && nextAct > t.value {
        nextAct := t.value;
      }
      EarliestSnoc(q', t);
      AllAdvancedSnoc(q, q', i, t, now);
      q' := q' + [t];
      i := i + 1;
    }
    assert q[..i] == q;
    AllAdvancedServiced(q, q', now);
  }

  lemma AllAdvancedSnoc(q: seq<Timer>, q': seq<Timer>, i: nat, t: Timer, now: int)
    requires i < |q| && AllAdvanced(q[..i], q', now) && t == Advanced(q[i], now)
    ensures AllAdvanced(q[..i + 1], q' + [t], now)
  {
    assert q[..i + 1] == q[..i] + [q[i]];
  }

  lemma {:induction false} EarliestSnoc(q: seq<Timer>, t: Timer)
    ensures Earliest(q + [t]) == if t.armed && t.value < Earliest(q) then t.value else Earliest(q)
  {
    if q != [] {
      assert (q + [t])[1..] == q[1..] + [t];
      EarliestSnoc(q[1..], t);
    }
  }

  // ----- the hardware timer -----

  function Max(a: int, b: int): int {
    if a > b then a else b
  }

  function Distance(a: int, b: int): int {
    if a < b then b - a else a - b
  }

  /** What happens to timers: the program arms and disarms them, the hardware interrupts, and the
      scheduler switches to a guest with its own queue or to the idle thread, or stays. */
  datatype Event =
    | Arming(inLocal: bool, i: nat, value: int, interval: int)
    | Disarming(inLocal: bool, i: nat)
    | Interrupt
    | Switching(queue: seq<Timer>)
    | Idling
    | Staying

  /** The clock never goes back. */
  predicate InTime(from: int, events: seq<(Event, int)>)
    decreases |events|
  {
    events == [] || (from <= events[0].1 < MAX_TIME && InTime(events[0].1, events[1..]))
  }

  predicate Touches(e: Event, i: nat) {
    match e
    case Arming(inLocal, k, _, _) => !inLocal && k == i
    case Disarming(inLocal, k) => !inLocal && k == i
    case _ => false
  }

  predicate Untouched(events: seq<(Event, int)>, i: nat) {
    forall k | 0 <= k < |events| :: !Touches(events[k].0, i)
  }

  /** What becomes of the timer `t` of the global queue if the program leaves it alone: a one-shot
      timer that is armed stays as it is until an event at or after its time and then fires, once; at
      the first timer interrupt from then on at the latest. */
  ghost predicate Outcome(t: Timer, t': Timer, events: seq<(Event, int)>) {
    && (!t.armed ==> t' == t)
    && (t.armed && t.interval <= 0 ==>
          && (t' == t || t' == Timer(t.value, t.interval, false, t.fired + 1))
          && ((forall k | 0 <= k < |events| :: events[k].1 < t.value) ==> t' == t)
          && ((exists k | 0 <= k < |events| :: events[k].0 == Interrupt && t.value <= events[k].1) ==>
                t' == Timer(t.value, t.interval, false, t.fired + 1)))
  }

  /** One event before the others. */
  lemma OutcomeAfter(t: Timer, t1: Timer, t': Timer, events: seq<(Event, int)>)
    requires events != [] && (t1 == t || Serviced(t, t1, events[0].1))
    requires events[0].0 == Interrupt ==> Serviced(t, t1, events[0].1)
    requires Outcome(t1, t', events[1..])
    ensures Outcome(t, t', events)
  {
    var rest := events[1..];
    if t.armed && t.interval <= 0 {
      if forall k | 0 <= k < |events| :: events[k].1 < t.value {
        assert forall k | 0 <= k < |rest| :: rest[k] == events[k + 1];
      }
      if k :| 0 <= k < |events| && events[k].0 == Interrupt && t.value <= events[k].1 {
        assert k > 0 ==> rest[k - 1] == events[k];
      }
    }
  }

  /** The timers of one processor: the global queue and the one of the running guest, and the next
      expiry of the hardware timer.  `progAt` is when the hardware timer was last programmed. */
  class TimerSystem {
    var global: seq<Timer>
    var hasGuest: bool
    var local: seq<Timer>
    var valid: bool
    var nextAct: int
    ghost var progAt: int
    const minInterval: nat
    const maxInterval: nat

    constructor (minInterval: nat, maxInterval: nat)
      ensures Covered() && fresh(this)
      ensures this.minInterval == minInterval && this.maxInterval == maxInterval
    {
      global, hasGuest, local := [], false, [];
      valid, nextAct, progAt := false, 0, 0;
      this.minInterval, this.maxInterval := minInterval, maxInterval;
    }

    function Queue(): seq<Timer>
      reads this
    {
      if hasGuest then global + local else global
    }

    /** The hardware timer goes off no later than `t` asks for, or than the hardware allows. */
    ghost predicate Covers(t: int)
      reads this
    {
      valid && nextAct <= Max(t, progAt + minInterval)
    }

    /** No armed timer is left uncovered. */
    ghost predicate Covered()
      reads this
    {
      forall i | 0 <= i < |Queue()| :: Queue()[i].armed ==> Covers(Queue()[i].value)
    }

    /** What the hardware is programmed with for a deadline `wait` from now. */
    function Clamp(wait: int): int {
      var w := if wait < minInterval then minInterval as int else wait;
      if w > maxInterval then maxInterval else w
    }

    /** Of all that the hardware can do this is nearest to the wait asked for. */
    lemma ClampIsNearest(wait: int, other: int)
      requires minInterval <= other <= maxInterval
      ensures minInterval <= Clamp(wait) <= maxInterval
      ensures Distance(Clamp(wait), wait) <= Distance(other, wait)
    {
    }

    /** Both queues of the running guest, or the global one alone, have been traversed. */
    twostate predicate Traversed(now: int)
      reads this
    {
      && AllAdvanced(old(global), global, now)
      && if hasGuest then AllAdvanced(old(local), local, now) else local == old(local)
    }

    /** The hardware timer has just been programmed for `next`. */
    ghost predicate Programmed(next: int, now: int)
      reads this
    {
      valid && progAt == now && nextAct == now + Clamp(next - now)
    }

    /** `set_hw_timer`; `handled` counts the timer interrupts that had to be handled on the spot: one
        at most, for a deadline in the past. */
    method SetHwTimer(next: int, now: int) returns (handled: nat)
      requires 0 <= next && progAt <= now < MAX_TIME
      modifies this
      ensures hasGuest == old(hasGuest)
      ensures if next == 0 || (old(valid) && old(nextAct) <= next) then
                handled == 0 && valid == old(valid) && nextAct == old(nextAct) && progAt == old(progAt)
                && global == old(global) && local == old(local)
              else if now <= next then
                handled == 0 && Programmed(next, now) && global == old(global) && local == old(local)
              else
                handled == 1 && Programmed(Earliest(Queue()), now) && Traversed(now) && Covered()
      decreases if next < now then 2 else 0
    {
      handled := 0;
      if next == 0 || (valid && next >= nextAct) {
        return;
      }
      valid := true;
      nextAct := next;
      var nextTime := next - now;
      if nextTime >= 0 {
        if nextTime < minInterval {
          nextTime := minInterval;
        }
        if nextTime > maxInterval {
          nextTime := maxInterval;
        }
        nextAct := nextTime + now;
        progAt := now;
      } else {
        var nested := TimerHandler(now);
        handled := nested + 1;
      }
    }

    /** `timer_handler`: afterwards every armed timer lies in the future and the hardware timer is
        programmed for the earliest of them; handling it never leads to handling it again. */
    method TimerHandler(now: int) returns (nested: nat)
      requires progAt <= now && 0 <= now < MAX_TIME
      modifies this
      ensures hasGuest == old(hasGuest) && nested == 0
      ensures Programmed(Earliest(Queue()), now) && Traversed(now) && Covered()
      ensures AllAfter(Queue(), now)
      decreases 1
    {
      valid := false;
      var next := TraverseQueues(now);
      EarliestAfter(Queue(), now);
      nested := SetHwTimer(next, now);
      ProgrammedCovers(now);
    }

    /** Both traversals of `timer_handler`, with the earlier of the two results. */
    method TraverseQueues(now: int) returns (next: int)
      requires 0 <= now
      modifies this`global, this`local
      ensures Traversed(now) && next == Earliest(Queue())
      ensures AllAfter(Queue(), now)
    {
      global, next := TraverseQueue(global, now);
      if hasGuest {
        var nextLocal;
        local, nextLocal := TraverseQueue(local, now);
        EarliestConcat(global, local);
        EarliestAtLeast(local, now);
        AllAfterConcat(global, local, now);
        if nextLocal != 0 && nextLocal < next {
          next := nextLocal;
        }
      }
    }

    /** Stores the new time; `k` is the timer's place among all timers. */
    method Rearm(inLocal: bool, i: nat, value: int, interval: int) returns (ghost k: nat)
      requires if inLocal then hasGuest && i < |local| else i < |global|
      requires Covered()
      modifies this`global, this`local
      ensures global == (if inLocal then old(global) else old(global[i := Timer(value, interval, true, global[i].fired)]))
      ensures local == if inLocal then old(local[i := Timer(value, interval, true, local[i].fired)]) else old(local)
      ensures k < |Queue()| && Queue()[k].armed && Queue()[k].value == value
      ensures forall j | 0 <= j < |Queue()| && j != k && Queue()[j].armed :: Covers(Queue()[j].value)
    {
      k := if inLocal then |global| + i else i;
      if inLocal {
        local := local[i := Timer(value, interval, true, local[i].fired)];
      } else {
        global := global[i := Timer(value, interval, true, global[i].fired)];
      }
      forall j | 0 <= j < |Queue()| && j != k && Queue()[j].armed ensures Covers(Queue()[j].value) {
        assert Queue()[j] == old(Queue())[j] && old(Covers(Queue()[j].value));
      }
    }

    /** `arm_ktimer` on a timer of either queue: everything stays covered, and the new deadline is
        covered too, unless it is the time 0, for which the hardware is never programmed. */
    method Arm(inLocal: bool, i: nat, value: int, interval: int, now: int)
      requires if inLocal then hasGuest && i < |local| else i < |global|
      requires 0 <= value && progAt <= now < MAX_TIME && Covered()
      modifies this
      ensures hasGuest == old(hasGuest)
      ensures |global| == old(|global|) && |local| == old(|local|) && (0 <= old(progAt) ==> 0 <= progAt <= now)
      ensures Covered() <==> value != 0 || (old(valid) && old(nextAct) <= Max(0, old(progAt) + minInterval))
      ensures value == 0 || now <= value || (old(valid) && old(nextAct) <= value) ==>
                global == (if inLocal then old(global) else old(global[i := Timer(value, interval, true, global[i].fired)]))
                && local == if inLocal then old(local[i := Timer(value, interval, true, local[i].fired)]) else old(local)
      ensures 0 < value < now && !(old(valid) && old(nextAct) <= value) ==>
                && AllServiced(if inLocal then old(global) else old(global[i := Timer(value, interval, true, global[i].fired)]), global, now)
                && (hasGuest ==>
                      AllServiced(if inLocal then old(local[i := Timer(value, interval, true, local[i].fired)]) else old(local), local, now))
                && (!hasGuest ==> local == old(local))
    {
      ghost var k := Rearm(inLocal, i, value, interval);
      ghost var armed := Queue();
      label Armed:
      var handled := SetHwTimer(value, now);
      if value == 0 {
        assert Queue() == armed;
        assert Covered() <==> Covers(armed[k].value);
      } else if handled == 0 {
        assert Queue() == armed && Covers(value);
        forall j | 0 <= j < |armed| && j != k && armed[j].armed ensures Covers(armed[j].value) {
          assert old@Armed(Covers(armed[j].value));
        }
      } else {
        AllAdvancedServiced(old@Armed(global), global, now);
        if hasGuest {
          AllAdvancedServiced(old@Armed(local), local, now);
        }
      }
    }

    /** `disarm_ktimer` */
    method Disarm(inLocal: bool, i: nat) returns (r: int)
      requires if inLocal then i < |local| else i < |global|
      requires Covered()
      modifies this`global, this`local
      ensures Covered() && r == if old(if inLocal then local[i] else global[i]).armed then 0 else -1
      ensures global == (if inLocal then old(global) else old(global[i := global[i].(armed := false)]))
      ensures local == if inLocal then old(local[i := local[i].(armed := false)]) else old(local)
    {
      var t := if inLocal then local[i] else global[i];
      if !t.armed {
        assert t.(armed := false) == t;
        return -1;
      }
      if inLocal {
        local := local[i := t.(armed := false)];
      } else {
        global := global[i := t.(armed := false)];
      }
      assert forall j | 0 <= j < |Queue()| && Queue()[j].armed :: Queue()[j] == old(Queue())[j];
      r := 0;
    }

    /** The timer part of a switch to a guest with the queue `queue`. */
    method SwitchGuest(queue: seq<Timer>, now: int)
      requires 0 <= progAt <= now < MAX_TIME && Covered()
      modifies this
      ensures Covered() && hasGuest && AllAdvanced(queue, local, now) && global == old(global)
      ensures 0 <= progAt <= now
    {
      var q, next := TraverseQueue(queue, now);
      EarliestAfter(q, now);
      var handled := SetHwTimer(next, now);
      assert forall i | 0 <= i < |global| :: old(Queue())[i] == old(global)[i];
      hasGuest, local := true, q;
    }

    /** The timer part of `schedule` when the running guest stays. */
    method Reprogram(now: int)
      requires hasGuest && 0 <= progAt <= now < MAX_TIME && Covered()
      modifies this
      ensures hasGuest && Covered() && AllAdvanced(old(global), global, now) && AllAdvanced(old(local), local, now)
      ensures 0 <= progAt <= now
    {
      ghost var before := Queue();
      var next := TraverseQueues(now);
      forall i | 0 <= i < |before| && before[i].armed ensures Covers(before[i].value) {
        assert old(Covers(before[i].value));
      }
      LaterStaysCovered(before, now);
      EarliestAfter(Queue(), now);
      var handled := SetHwTimer(next, now);
      if valid && nextAct == now + Clamp(next - now) && progAt == now {
        ProgrammedCovers(now);
      }
    }

    /** A switch to the idle thread, which has no timers of its own. */
    method SwitchIdle()
      requires Covered()
      modifies this`hasGuest
      ensures Covered() && !hasGuest
    {
      assert forall i | 0 <= i < |global| :: Queue()[i] == global[i];
      hasGuest := false;
    }

    /** Events name timers that exist; no timer is armed for the time 0 (see `Arm`). */
    predicate Possible(e: Event)
      reads this
    {
      match e
      case Arming(inLocal, i, value, _) => value > 0 && if inLocal then hasGuest && i < |local| else i < |global|
      case Disarming(inLocal, i) => if inLocal then hasGuest && i < |local| else i < |global|
      case Staying => hasGuest
      case _ => true
    }

    method Happen(e: Event, now: int)
      requires Possible(e) && Covered() && 0 <= progAt <= now < MAX_TIME
      modifies this
      ensures Covered() && 0 <= progAt <= now
      ensures |global| == old(|global|)
      ensures forall i | 0 <= i < |global| && !Touches(e, i) :: global[i] == old(global[i]) || Serviced(old(global[i]), global[i], now)
      ensures e == Interrupt ==> AllServiced(old(global), global, now)
    {
      match e
      case Arming(inLocal, i, value, interval) =>
        Arm(inLocal, i, value, interval, now);
      case Disarming(inLocal, i) =>
        var r := Disarm(inLocal, i);
      case Interrupt =>
        var nested := TimerHandler(now);
        AllAdvancedServiced(old(global), global, now);
      case Switching(queue) =>
        SwitchGuest(queue, now);
      case Idling =>
        SwitchIdle();
      case Staying =>
        Reprogram(now);
        AllAdvancedServiced(old(global), global, now);
    }

    /** However timers are armed, disarmed and handled, and whatever guests run in between, no armed
        timer is ever left uncovered, and the timers left alone fire when they are due and only then.
        What is not possible any more does not happen. */
    method Run(events: seq<(Event, int)>, from: int)
      requires Covered() && 0 <= progAt <= from && InTime(from, events)
      modifies this
      ensures Covered() && |global| == old(|global|)
      ensures forall i | 0 <= i < |global| && Untouched(events, i) :: Outcome(old(global[i]), global[i], events)
      decreases |events|
    {
      if events != [] {
        ghost var before := global;
        if Possible(events[0].0) {
          Happen(events[0].0, events[0].1);
        }
        ghost var between := global;
        Run(events[1..], events[0].1);
        forall i | 0 <= i < |global| && Untouched(events, i) ensures Outcome(before[i], global[i], events) {
          UntouchedLater(events, i);
          OutcomeAfter(before[i], between[i], global[i], events);
        }
      }
    }

    /** Traversing covered timers leaves them covered: a deadline only ever moves away. */
    lemma LaterStaysCovered(before: seq<Timer>, now: int)
      requires AllAdvanced(before, Queue(), now)
      requires forall i | 0 <= i < |before| :: before[i].armed ==> Covers(before[i].value)
      ensures Covered()
    {
      forall i | 0 <= i < |Queue()| && Queue()[i].armed ensures Covers(Queue()[i].value) {
        if Expired(before[i], now) {
          AdvancedIsLeast(before[i], now);
        }
      }
    }

    /** What is programmed for the earliest timer covers every timer. */
    lemma ProgrammedCovers(now: int)
      requires Programmed(Earliest(Queue()), now)
      ensures Covered()
    {
    }
  }

  lemma UntouchedLater(events: seq<(Event, int)>, i: nat)
    requires events != [] && Untouched(events, i)
    ensures !Touches(events[0].0, i) && Untouched(events[1..], i)
  {
  }

  lemma {:induction false} EarliestConcat(a: seq<Timer>, b: seq<Timer>)
    ensures Earliest(a + b) == if Earliest(b) < Earliest(a) then Earliest(b) else Earliest(a)
  {
    if a == [] {
      assert a + b == b;
    } else {
      assert (a + b)[1..] == a[1..] + b;
      EarliestConcat(a[1..], b);
    }
  }

  lemma AllAfterConcat(a: seq<Timer>, b: seq<Timer>, now: int)
    requires AllAfter(a, now) && AllAfter(b, now)
    ensures AllAfter(a + b, now)
  {
  }

  lemma EarliestAtLeast(q: seq<Timer>, now: int)
    requires 0 <= now && AllAfter(q, now)
    ensures Earliest(q) > 0
  {
  }

  lemma EarliestAfter(q: seq<Timer>, now: int)
    requires now < MAX_TIME && AllAfter(q, now)
    ensures now < Earliest(q)
  {
  }
}
