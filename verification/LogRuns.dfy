/** Whole runs of a log stream, and what a restart finds when one of its operations is cut short. */
module LogRuns {
  import opened Options
  import opened LogImages
  import opened LogRings
  import opened LogStreams

  // ----- stopping and starting again -----

  /** However far an insertion got, starting again finds the old log, damaged at most in the oldest
      record of a full ring, or exactly the new one. */
  lemma InsertRestart(img: Image, elemSize: nat, max: nat, c: nat, ctrl: Ctrl, log: seq<Byte>, k: nat, r: Image)
    requires |img| > HEADER_SIZE && elemSize > 0 && 0 < max == Capacity(|img|, elemSize) < WORD
    requires Room(|img|, elemSize, max) && CtrlValid(max, ctrl) && CtrlValid(max, Inserted(max, ctrl)) && ctrl.tail < max
    requires c < 2 && ActiveIn(img, elemSize) == Some(Active(1 - c, ctrl)) && |log| == elemSize
    requires r == Interrupted(img, elemSize, max, c, ctrl, log, k)
    ensures Trusted(img, elemSize) && Trusted(r, elemSize)
    ensures var was, now := Found(img, elemSize), Found(r, elemSize);
            if k <= elemSize + CTRL_SIZE
            then Kept(max, now.records) == Kept(max, was.records) && |now.records| == |was.records| && now.d == was.d
            else now.(locked := false) == AfterInsert(was.(locked := false), log)
  {
    InsertCrash(img, elemSize, max, c, ctrl, log, k, r);
  }

  /** The same for the first insertion after a fresh header, as long as it does not stop inside the
      write of the control record. */
  lemma FirstInsertRestart(img: Image, elemSize: nat, max: nat, ctrl: Ctrl, log: seq<Byte>, k: nat, r: Image)
    requires |img| > HEADER_SIZE && elemSize > 0 && 0 < max == Capacity(|img|, elemSize) < WORD
    requires Room(|img|, elemSize, max) && CtrlValid(max, ctrl) && CtrlValid(max, Inserted(max, ctrl)) && ctrl.tail < max
    requires ActiveIn(img, elemSize) == Some(Active(0, ctrl)) && |log| == elemSize
    requires k <= elemSize || elemSize + CTRL_SIZE <= k
    requires r == Interrupted(img, elemSize, max, 0, ctrl, log, k)
    ensures Trusted(img, elemSize) && Trusted(r, elemSize)
    ensures var was, now := Found(img, elemSize), Found(r, elemSize);
            if k <= elemSize
            then Kept(max, now.records) == Kept(max, was.records) && |now.records| == |was.records| && now.d == was.d
            else now.(locked := false) == AfterInsert(was.(locked := false), log)
  {
    FirstInsertCrash(img, elemSize, max, ctrl, log, k, r);
  }

  /** Up to how many bytes of an insertion leave the old log in force. */
  ghost function StillOld(ls: LogStream): nat
    requires ls.Ready()
    reads ls, ls.kdev, ls.kdev.mem
  {
    if ls.Alternating() then ls.elemSize + CTRL_SIZE else ls.elemSize
  }

  /** This covers every insertion of every stream, the writes being those that `LogStream.Insert`
      makes; only the first one after a fresh header must not stop inside the write of the control
      record. */
  lemma InsertAnywhere(ls: LogStream, log: seq<Byte>, k: nat, r: Image)
    requires ls.Valid() && ls.max > 0 && |log| == ls.elemSize && ls.cHdr < 2
    requires ls.Alternating() || k <= ls.elemSize || ls.elemSize + CTRL_SIZE <= k
    requires CtrlFits(Inserted(ls.max, ls.ctrl)) && AllFit(ls.kdev.mem.Length, InsertWrites(ls.elemSize, ls.max, ls.cHdr, ls.ctrl, log))
    requires r == Crash(ls.kdev.mem[..], InsertWrites(ls.elemSize, ls.max, ls.cHdr, ls.ctrl, log), k)
    ensures Trusted(r, ls.elemSize)
    ensures var was, now := ls.View().(locked := false), Found(r, ls.elemSize).(locked := false);
            if k <= StillOld(ls)
            then Kept(ls.max, now.records) == Kept(ls.max, was.records) && |now.records| == |was.records| && now.d == was.d
            else now == AfterInsert(was, log)
  {
    CapacityHasRoom(ls.kdev.mem.Length, ls.elemSize);
    InsertedValid(ls.max, ls.ctrl);
    if ls.Alternating() {
      InsertRestart(ls.kdev.mem[..], ls.elemSize, ls.max, ls.cHdr, ls.ctrl, log, k, r);
    } else {
      FirstInsertRestart(ls.kdev.mem[..], ls.elemSize, ls.max, ls.ctrl, log, k, r);
    }
    ls.RestartFinds();
  }

  /** However far a commit that only moved the cursor got, starting again finds every record and one
      of the two cursors. */
  lemma CursorRestart(img: Image, elemSize: nat, max: nat, c: nat, ctrl: Ctrl, d: nat, k: nat)
    requires |img| > HEADER_SIZE && elemSize > 0 && 0 < max == Capacity(|img|, elemSize) < WORD
    requires Room(|img|, elemSize, max) && CtrlValid(max, ctrl) && d <= ctrl.elem
    requires c < 2 && ActiveIn(img, elemSize) == Some(Active(1 - c, ctrl))
    ensures CtrlFits(ctrl.(d := d)) && Trusted(img, elemSize)
    ensures var r := Crash(img, CommitWrites(c, ctrl.(d := d)), k);
            && Trusted(r, elemSize) && Found(r, elemSize).records == Found(img, elemSize).records
            && Found(r, elemSize).d == if k <= CTRL_SIZE then Found(img, elemSize).d else d
  {
    CommitCrash(img, elemSize, c, ctrl, ctrl.(d := d), k);
    var r := Crash(img, CommitWrites(c, ctrl.(d := d)), k);
    RecordsBehindHeader(r, img, elemSize, max, ctrl);
    RecordsBehindHeader(r, img, elemSize, max, ctrl.(d := d));
    assert Records(img, elemSize, max, ctrl) == Records(img, elemSize, max, ctrl.(d := d));
  }

  // ----- runs -----

  datatype Op = Insert(log: seq<Byte>) | Get | Seek(offset: int, whence: nat) | Lock | Unlock

  function After(l: Log, op: Op): Log {
    match op
    case Insert(log) => AfterInsert(l, log)
    case Get => AfterGet(l)
    case Seek(offset, whence) => if WhenceKnown(whence) then l.(d := Destination(l, offset, whence)) else l
    case Lock => l.(locked := true)
    case Unlock => l.(locked := false)
  }

  function Final(l: Log, ops: seq<Op>): Log
    decreases |ops|
  {
    if ops == [] then l else Final(After(l, ops[0]), ops[1..])
  }

  /** The records that the run's reads return. */
  function Got(l: Log, op: Op): seq<seq<Byte>> {
    if op.Get? && NextUnread(l).Some? then [NextUnread(l).value] else []
  }

  function Gots(l: Log, ops: seq<Op>): seq<seq<Byte>>
    decreases |ops|
  {
    if ops == [] then []
    else Got(l, ops[0]) + Gots(After(l, ops[0]), ops[1..])
  }

  /** The records that the run inserts. */
  function Logs(ops: seq<Op>): seq<seq<Byte>> {
    if ops == [] then [] else (if ops[0].Insert? then [ops[0].log] else []) + Logs(ops[1..])
  }

  method Perform(ls: LogStream, op: Op) returns (got: seq<seq<Byte>>)
    requires ls.Valid() && (op.Insert? ==> |op.log| == ls.elemSize)
    modifies ls`ctrl, ls`cHdr, ls`locked, ls.kdev`pos, ls.kdev`history, ls.kdev.mem
    ensures ls.Valid() && ls.View() == After(old(ls.View()), op) && got == Got(old(ls.View()), op)
    ensures old(ls.Alternating()) ==> ls.Alternating()
  {
    got := [];
    match op
    case Insert(log) =>
      var smashed := ls.Insert(log);
    case Get =>
      var log := ls.Get();
      if log.Some? {
        got := [log.value];
      }
    case Seek(offset, whence) =>
      var off := ls.Seek(offset, whence);
    case Lock =>
      ls.Lock();
    case Unlock =>
      ls.Unlock();
  }

  /** The stream behaves like the log it holds, over any run, and no run leads back to a state in
      which a commit would overwrite the control record in force. */
  method Run(ls: LogStream, ops: seq<Op>) returns (gots: seq<seq<Byte>>)
    requires ls.Valid() && forall i | 0 <= i < |ops| :: ops[i].Insert? ==> |ops[i].log| == ls.elemSize
    modifies ls`ctrl, ls`cHdr, ls`locked, ls.kdev`pos, ls.kdev`history, ls.kdev.mem
    ensures ls.Valid() && ls.View() == Final(old(ls.View()), ops) && gots == Gots(old(ls.View()), ops)
    ensures old(ls.Alternating()) ==> ls.Alternating()
    decreases |ops|
  {
    if ops == [] {
      return [];
    }
    var got := Perform(ls, ops[0]);
    var more := Run(ls, ops[1..]);
    gots := got + more;
  }

  /** The last `n` of `s`, or all of it. */
  function Last<T>(s: seq<T>, n: nat): seq<T> {
    if |s| <= n then s else s[|s| - n..]
  }

  lemma {:induction false} StaysValid(l: Log, ops: seq<Op>)
    requires LogValid(l)
    ensures LogValid(Final(l, ops))
    decreases |ops|
  {
    if ops != [] {
      StaysValid(After(l, ops[0]), ops[1..]);
    }
  }

  lemma LastAppended<T>(s: seq<T>, x: T, more: seq<T>, n: nat)
    requires |s| <= n && n > 0
    ensures Last((if |s| >= n then s[1..] else s) + [x] + more, n) == Last(s + ([x] + more), n)
  {
    var t := s + ([x] + more);
    if |s| >= n {
      assert s[1..] + [x] + more == t[1..];
      assert t[1..][|t| - 1 - n..] == t[|t| - n..];
    } else {
      assert s + [x] + more == t;
    }
  }

  /** A log that is never locked always holds the most recent records, and nothing else. */
  lemma {:induction false} HoldsMostRecent(l: Log, ops: seq<Op>)
    requires LogValid(l) && !l.locked && Lock !in ops
    ensures Final(l, ops).records == Last(l.records + Logs(ops), l.max)
    decreases |ops|
  {
    if ops == [] {
      assert l.records + [] == l.records;
    } else {
      HoldsMostRecent(After(l, ops[0]), ops[1..]);
      if ops[0].Insert? && l.max > 0 {
        LastAppended(l.records, ops[0].log, Logs(ops[1..]), l.max);
      } else {
        assert [] + Logs(ops[1..]) == Logs(ops[1..]);
      }
    }
  }

  /** A locked log loses nothing: what it held is still there, in front. */
  lemma {:induction false} LockedKeeps(l: Log, ops: seq<Op>)
    requires LogValid(l) && l.locked && Unlock !in ops
    ensures l.records <= Final(l, ops).records
    decreases |ops|
  {
    if ops != [] {
      LockedKeeps(After(l, ops[0]), ops[1..]);
    }
  }

  /** The first `n` of `s`, or all of it. */
  function First<T>(s: seq<T>, n: nat): seq<T> {
    if |s| <= n then s else s[..n]
  }

  lemma FirstAppended<T>(s: seq<T>, x: T, more: seq<T>, n: nat)
    requires |s| <= n
    ensures First((if |s| < n then s + [x] else s) + more, n) == First(s + ([x] + more), n)
  {
    if |s| < n {
      assert (s + [x]) + more == s + ([x] + more);
    } else {
      assert First(s + more, n) == s && First(s + ([x] + more), n) == s;
    }
  }

  lemma LockedStep(l: Log, op: Op)
    requires LogValid(l) && l.locked && op != Unlock
    ensures var n := After(l, op);
            && LogValid(n) && n.locked && n.max == l.max
            && n.records == if op.Insert? && |l.records| < l.max then l.records + [op.log] else l.records
  {
  }

  /** A locked log takes records for as long as there is room and holds the first that came. */
  lemma {:induction false} LockedHoldsFirst(l: Log, ops: seq<Op>)
    requires LogValid(l) && l.locked && Unlock !in ops
    ensures Final(l, ops).records == First(l.records + Logs(ops), l.max)
    decreases |ops|
  {
    if ops == [] {
      assert l.records + [] == l.records;
    } else {
      var op, rest := ops[0], Logs(ops[1..]);
      LockedStep(l, op);
      LockedHoldsFirst(After(l, op), ops[1..]);
      if op.Insert? {
        FirstAppended(l.records, op.log, rest, l.max);
      } else {
        assert [] + rest == rest;
      }
    }
  }

  /** Reading `n` records that are still to be read moves the cursor where seeking `n` places on does. */
  lemma {:induction false} ReadsSeek(l: Log, n: nat, ops: seq<Op>)
    requires LogValid(l) && l.d + n <= |l.records| && |ops| == n && forall i | 0 <= i < n :: ops[i] == Get
    ensures Final(l, ops) == l.(d := Destination(l, n, PRTOS_LOGSTREAM_CURRENT))
    ensures Gots(l, ops) == l.records[l.d..l.d + n]
    decreases n
  {
    if n > 0 {
      ReadsSeek(After(l, ops[0]), n - 1, ops[1..]);
      assert l.records[l.d..l.d + n] == [l.records[l.d]] + l.records[l.d + 1..l.d + n];
    }
  }

  /** No insertion of the run is refused or overwrites a record not yet read. */
  predicate NothingLost(l: Log, ops: seq<Op>)
    decreases |ops|
  {
    ops == [] ||
    ((ops[0].Insert? ==> |l.records| < l.max || (l.max > 0 && !l.locked && l.d > 0)) && NothingLost(After(l, ops[0]), ops[1..]))
  }

  lemma ReadStep(l: Log, op: Op)
    requires LogValid(l) && !op.Seek? && NothingLost(l, [op])
    ensures LogValid(After(l, op))
    ensures Got(l, op) + Pending(After(l, op)) == Pending(l) + if op.Insert? then [op.log] else []
  {
    var n := After(l, op);
    if op.Insert? {
      assert Pending(n) == Pending(l) + [op.log];
    } else if op.Get? && l.d < |l.records| {
      assert Pending(l) == [l.records[l.d]] + Pending(n);
    }
  }

  lemma Regrouped<T>(a: seq<T>, b: seq<T>, c: seq<T>, d: seq<T>, e: seq<T>, f: seq<T>, g: seq<T>)
    requires b + c == d + e && a + d == f + g
    ensures (a + b) + c == f + (g + e)
  {
    assert (a + b) + c == a + (b + c) && a + (d + e) == (a + d) + e && (f + g) + e == f + (g + e);
  }

  /** Then readers that never seek get exactly what was inserted, in order. */
  lemma {:induction false} ReadInOrder(l: Log, ops: seq<Op>)
    requires LogValid(l) && NothingLost(l, ops) && forall i | 0 <= i < |ops| :: !ops[i].Seek?
    ensures LogValid(Final(l, ops)) && Gots(l, ops) + Pending(Final(l, ops)) == Pending(l) + Logs(ops)
    decreases |ops|
  {
    if ops == [] {
      assert Pending(l) + [] == Pending(l);
    } else {
      var n := After(l, ops[0]);
      ReadInOrder(n, ops[1..]);
      var got, inserted := Got(l, ops[0]), if ops[0].Insert? then [ops[0].log] else [];
      ReadStep(l, ops[0]);
      Regrouped(got, Gots(n, ops[1..]), Pending(Final(l, ops)), Pending(n), Logs(ops[1..]), Pending(l), inserted);
    }
  }
}
