/** The execution-time clock of a partition and the timer on it (core/include/ktimer.h,
    core/kernel/ktimer.c).  The clock runs only while the partition does; its timer is carried by an
    ordinary kernel timer that is armed again each time the partition resumes. */
module VirtualTimers {

  /** The total length of the spans, each given by the time it starts and the time it ends. */
  function TotalTime(spans: seq<(int, int)>): int {
    if spans == [] then 0 else spans[0].1 - spans[0].0 + TotalTime(spans[1..])
  }

  predicate InOrder(from: int, spans: seq<(int, int)>)
    decreases |spans|
  {
    spans == [] || (from <= spans[0].0 <= spans[0].1 && InOrder(spans[0].1, spans[1..]))
  }

  class VirtualTimer {
    // vclock_t
    var acc: int
    var delta: int
    var enabled: bool
    // vtimer_t
    var value: int
    var interval: int
    var armed: bool
    // the kernel timer below it
    var ktValue: int
    var ktInterval: int
    var ktArmed: bool

    /** `init_vclock`, and a timer that is not armed. */
    constructor ()
      ensures Consistent() && !enabled && !armed && acc == 0
    {
      acc, delta, enabled := 0, 0, false;
      value, interval, armed := 0, 0, false;
      ktValue, ktInterval, ktArmed := 0, 0, false;
    }

    /** `get_time_usec_vclock` */
    function Time(now: int): int
      reads this
    {
      if enabled then acc + (now - delta) else acc
    }

    /** The kernel timer runs exactly while the partition does, with the interval of the virtual one,
        and is ahead of it by a number of whole intervals that expiries have skipped. */
    ghost predicate Consistent()
      reads this
    {
      && (armed ==> ktArmed == enabled)
      && (enabled && armed ==> ktInterval == interval && exists skipped: nat :: Ahead(skipped))
    }

    ghost predicate Ahead(skipped: nat)
      reads this
    {
      ktValue - (value - acc + delta) == skipped * interval
    }

    /** The kernel timer has as far to go as the virtual timer, at every time. */
    ghost predicate Exact()
      reads this
    {
      forall now :: ktValue - now == value - Time(now)
    }

    /** `resume_vclock` */
    method Resume(now: int)
      requires !enabled && Consistent()
      modifies this
      ensures enabled && Consistent() && (armed ==> Exact() && ktArmed)
      ensures Time(now) == old(acc)
      ensures forall later :: Time(later) == old(acc) + (later - now)
      ensures value == old(value) && interval == old(interval) && armed == old(armed)
    {
      delta := now;
      enabled := true;
      if armed {
        ktValue, ktInterval, ktArmed := value - acc + delta, interval, true;
        assert Ahead(0);
      }
    }

    /** `stop_vclock` */
    method Stop(now: int)
      requires enabled && Consistent()
      modifies this
      ensures !enabled && Consistent() && (armed ==> !ktArmed)
      ensures acc == old(Time(now))
      ensures value == old(value) && interval == old(interval) && armed == old(armed)
    {
      if armed {
        ktArmed := false;
      }
      enabled := false;
      acc := acc + now - delta;
    }

    /** `arm_vtimer` */
    method Arm(v: int, i: int)
      requires Consistent() && (!enabled ==> !ktArmed)
      modifies this
      ensures Consistent() && armed && value == v && interval == i
      ensures enabled ==> Exact() && ktArmed
      ensures acc == old(acc) && delta == old(delta) && enabled == old(enabled)
    {
      value, interval, armed := v, i, true;
      if enabled {
        ktValue, ktInterval, ktArmed := v - acc + delta, i, true;
        assert Ahead(0);
      }
    }

    /** The expiry of the kernel timer in a queue traversal at `now`: `vtimer_handle` moves the virtual
        timer by one interval, the traversal then moves the kernel timer past `now`.  Both keep step
        if and only if no interval was overrun. */
    method Expire(now: int)
      requires enabled && armed && Consistent() && ktValue <= now
      modifies this
      ensures enabled && Consistent()
      ensures acc == old(acc) && delta == old(delta) && interval == old(interval)
      ensures old(interval) <= 0 ==> !armed && !ktArmed
      ensures old(interval) > 0 ==> armed && ktArmed && now < ktValue <= now + interval && value == old(value) + interval
      ensures old(interval) > 0 && old(Exact()) ==> (Exact() <==> now < old(ktValue) + interval)
    {
      if interval > 0 {
        value := value + interval;
      } else {
        armed := false;
      }
      if ktInterval > 0 {
        ghost var k := 0;
        ghost var skipped: nat :| old(Ahead(skipped));
        var kt := ktValue + ktInterval;
        while kt <= now
          invariant k >= 0 && kt == ktValue + (k + 1) * ktInterval && kt <= now + ktInterval
          invariant k > 0 ==> ktValue + ktInterval <= now
          decreases now - kt
        {
          kt := kt + ktInterval;
          k := k + 1;
        }
        ktValue := kt;
        assert (skipped + k) * interval == skipped * interval + k * interval;
        assert Ahead(skipped + k);
        if old(Exact()) {
          ExactIsAhead(now);
          assert old(ktValue) - now == old(value - Time(now));
          assert k > 0 ==> k * interval >= interval;
        }
      } else {
        ktArmed := false;
      }
    }

    lemma ExactIsAhead(now: int)
      requires enabled
      ensures Exact() <==> ktValue == value - acc + delta
    {
      if Exact() {
        assert ktValue - now == value - Time(now);
      }
    }

    /** Over any alternation of resumptions and stops, the clock shows the time spent running. */
    method RunSpans(spans: seq<(int, int)>, from: int)
      requires !enabled && Consistent() && InOrder(from, spans)
      modifies this
      ensures !enabled && Consistent()
      ensures forall now :: Time(now) == old(acc) + TotalTime(spans)
    {
      var i := 0;
      while i < |spans|
        invariant 0 <= i <= |spans| && !enabled && Consistent()
        invariant acc + TotalTime(spans[i..]) == old(acc) + TotalTime(spans)
      {
        Resume(spans[i].0);
        Stop(spans[i].1);
        assert spans[i..][1..] == spans[i + 1..];
        i := i + 1;
      }
    }
  }
}
