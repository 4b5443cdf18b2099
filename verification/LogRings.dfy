/** The ring of records behind the header of a log stream (core/include/logstream.h), as a sequence
    with the oldest record first and a read cursor. */
module LogRings {
  import opened Arithmetic
  import opened LogImages
  import opened Options

  // ----- positions in the ring -----

  function Wrap(x: nat, max: nat): nat {
    if x < max then x else x - max
  }

  function Next(i: nat, max: nat): nat {
    if i + 1 < max then i + 1 else 0
  }

  /** The control record of a ring with room for `max` records. */
  predicate CtrlValid(max: nat, c: Ctrl) {
    c.head < max && c.d <= c.elem <= max && c.tail == Wrap(c.head + c.elem, max)
  }

  lemma WrapIsModulo(x: nat, max: nat)
    requires x < 2 * max
    ensures Wrap(x, max) == x % max
  {
    if x < max {
      DivModUnique(x, max, 0, x);
    } else {
      DivModUnique(x, max, 1, x - max);
    }
  }

  /** The tail is always `elem` places after the head, modulo the size of the ring. */
  lemma CtrlValidMeans(max: nat, c: Ctrl)
    ensures CtrlValid(max, c) <==>
            0 < max && c.head < max && c.d <= c.elem <= max && c.tail == (c.head + c.elem) % max
  {
    if c.head < max && c.elem <= max {
      WrapIsModulo(c.head + c.elem, max);
    }
  }

  // ----- records -----

  /** Where slot `i` starts. */
  function SlotOffset(i: nat, elemSize: nat): nat {
    if i == 0 then HEADER_SIZE else SlotOffset(i - 1, elemSize) + elemSize
  }

  lemma {:induction false} SlotOffsetIs(i: nat, elemSize: nat)
    ensures SlotOffset(i, elemSize) == HEADER_SIZE + i * elemSize
  {
    if i > 0 {
      SlotOffsetIs(i - 1, elemSize);
      assert i * elemSize == (i - 1) * elemSize + elemSize;
    }
  }

  /** Different slots do not overlap. */
  lemma {:induction false} SlotsApart(elemSize: nat, i: nat, j: nat)
    requires i < j
    ensures HEADER_SIZE <= SlotOffset(i, elemSize) <= SlotOffset(i, elemSize) + elemSize <= SlotOffset(j, elemSize)
    decreases j
  {
    if i + 1 < j {
      SlotsApart(elemSize, i, j - 1);
    } else if i > 0 {
      SlotsApart(elemSize, i - 1, i);
    }
  }

  predicate Room(size: nat, elemSize: nat, max: nat) {
    SlotOffset(max, elemSize) <= size
  }

  /** Every slot that the header counts lies inside the device. */
  lemma {:induction false} CapacityHasRoom(size: nat, elemSize: nat)
    requires elemSize > 0
    ensures Capacity(size, elemSize) > 0 ==> Room(size, elemSize, Capacity(size, elemSize))
  {
    if size >= HEADER_SIZE + elemSize {
      CapacityHasRoom(size - elemSize, elemSize);
    }
  }

  function RecordAt(img: Image, elemSize: nat, max: nat, i: nat): (r: seq<Byte>)
    requires Room(|img|, elemSize, max) && i < max
    ensures |r| == elemSize
  {
    SlotsApart(elemSize, i, max);
    img[SlotOffset(i, elemSize)..SlotOffset(i, elemSize) + elemSize]
  }

  /** The records of the ring, oldest first. */
  function Records(img: Image, elemSize: nat, max: nat, c: Ctrl): (r: seq<seq<Byte>>)
    requires Room(|img|, elemSize, max) && CtrlValid(max, c)
    ensures |r| == c.elem
    ensures forall i | 0 <= i < c.elem :: r[i] == RecordAt(img, elemSize, max, Wrap(c.head + i, max))
  {
    seq(c.elem, i requires 0 <= i < c.elem => RecordAt(img, elemSize, max, Wrap(c.head + i, max)))
  }

  lemma RecordElsewhere(img: Image, elemSize: nat, max: nat, i: nat, j: nat, bytes: seq<Byte>)
    requires Room(|img|, elemSize, max) && i < max && j < max && i != j && |bytes| <= elemSize
    ensures SlotOffset(j, elemSize) + |bytes| <= |img|
    ensures RecordAt(Splice(img, SlotOffset(j, elemSize), bytes), elemSize, max, i) == RecordAt(img, elemSize, max, i)
  {
    SlotsApart(elemSize, i, max);
    SlotsApart(elemSize, j, max);
    if i < j {
      SlotsApart(elemSize, i, j);
    } else {
      SlotsApart(elemSize, j, i);
    }
    SpliceElsewhere(img, SlotOffset(j, elemSize), bytes, SlotOffset(i, elemSize), SlotOffset(i, elemSize) + elemSize);
  }

  lemma RecordThere(img: Image, elemSize: nat, max: nat, j: nat, bytes: seq<Byte>)
    requires Room(|img|, elemSize, max) && j < max && |bytes| == elemSize
    ensures SlotOffset(j, elemSize) + |bytes| <= |img|
    ensures RecordAt(Splice(img, SlotOffset(j, elemSize), bytes), elemSize, max, j) == bytes
  {
    SlotsApart(elemSize, j, max);
    SpliceWithin(img, SlotOffset(j, elemSize), bytes, 0, elemSize);
  }

  lemma RecordBehindHeader(a: Image, b: Image, elemSize: nat, max: nat, i: nat)
    requires |a| == |b| > HEADER_SIZE && a[HEADER_SIZE..] == b[HEADER_SIZE..]
    requires Room(|a|, elemSize, max) && i < max
    ensures RecordAt(a, elemSize, max, i) == RecordAt(b, elemSize, max, i)
  {
    SlotsApart(elemSize, i, max);
    var x, y := SlotOffset(i, elemSize), SlotOffset(i, elemSize) + elemSize;
    assert a[x..y] == a[HEADER_SIZE..][x - HEADER_SIZE..y - HEADER_SIZE];
    assert b[x..y] == b[HEADER_SIZE..][x - HEADER_SIZE..y - HEADER_SIZE];
  }

  /** The records depend on nothing before the end of the header. */
  lemma RecordsBehindHeader(a: Image, b: Image, elemSize: nat, max: nat, c: Ctrl)
    requires |a| == |b| > HEADER_SIZE && a[HEADER_SIZE..] == b[HEADER_SIZE..]
    requires Room(|a|, elemSize, max) && CtrlValid(max, c)
    ensures Records(a, elemSize, max, c) == Records(b, elemSize, max, c)
  {
    forall i: nat | i < max ensures RecordAt(a, elemSize, max, i) == RecordAt(b, elemSize, max, i) {
      RecordBehindHeader(a, b, elemSize, max, i);
    }
  }

  // ----- insertion -----

  /** The control record once a full ring has lost its oldest record. */
  function Dropped(max: nat, c: Ctrl): Ctrl {
    if c.elem >= max && c.elem > 0
    then Ctrl(c.tail, c.elem - 1, Next(c.head, max), if c.d > 0 then c.d - 1 else c.d)
    else c
  }

  /** The control record after an insertion. */
  function Inserted(max: nat, c: Ctrl): Ctrl {
    var e := Dropped(max, c);
    Ctrl(Next(e.tail, max), e.elem + 1, e.head, e.d)
  }

  /** An insertion keeps the ring consistent, and always finds a free slot. */
  lemma InsertedValid(max: nat, c: Ctrl)
    requires CtrlValid(max, c)
    ensures CtrlValid(max, Dropped(max, c)) && Dropped(max, c).elem < max
    ensures CtrlValid(max, Inserted(max, c)) && c.tail < max
  {
  }

  /** `records` without its first record if the ring is full. */
  function Kept<T>(max: nat, records: seq<T>): seq<T> {
    if |records| >= max && |records| > 0 then records[1..] else records
  }

  /** Writing a record, or part of one, into the slot at the tail changes no record of the log but
      the oldest one of a full ring. */
  lemma TailWrite(img: Image, elemSize: nat, max: nat, c: Ctrl, bytes: seq<Byte>)
    requires Room(|img|, elemSize, max) && CtrlValid(max, c) && |bytes| <= elemSize
    ensures SlotOffset(c.tail, elemSize) + |bytes| <= |img|
    ensures Kept(max, Records(Splice(img, SlotOffset(c.tail, elemSize), bytes), elemSize, max, c))
            == Kept(max, Records(img, elemSize, max, c))
  {
    InsertedValid(max, c);
    SlotsApart(elemSize, c.tail, max);
    var r := Splice(img, SlotOffset(c.tail, elemSize), bytes);
    forall i | 0 <= i < c.elem && (i > 0 || c.elem < max)
      ensures Records(r, elemSize, max, c)[i] == Records(img, elemSize, max, c)[i]
    {
      TailKeeps(img, elemSize, max, c, bytes, i);
    }
    KeptSame(max, Records(r, elemSize, max, c), Records(img, elemSize, max, c));
  }

  lemma TailKeeps(img: Image, elemSize: nat, max: nat, c: Ctrl, bytes: seq<Byte>, i: nat)
    requires Room(|img|, elemSize, max) && CtrlValid(max, c) && |bytes| <= elemSize
    requires i < c.elem && (i > 0 || c.elem < max)
    ensures SlotOffset(c.tail, elemSize) + |bytes| <= |img|
    ensures Records(Splice(img, SlotOffset(c.tail, elemSize), bytes), elemSize, max, c)[i] == Records(img, elemSize, max, c)[i]
  {
    RecordElsewhere(img, elemSize, max, Wrap(c.head + i, max), c.tail, bytes);
  }

  lemma KeptSame<T>(max: nat, a: seq<T>, b: seq<T>)
    requires |a| == |b| && forall i | 0 <= i < |a| && (i > 0 || |a| < max) :: a[i] == b[i]
    ensures Kept(max, a) == Kept(max, b)
  {
  }

  /** After an insertion the log is what it was, without its oldest record if it was full, followed by
      the new record. */
  lemma InsertedRecords(img: Image, elemSize: nat, max: nat, c: Ctrl, log: seq<Byte>)
    requires Room(|img|, elemSize, max) && CtrlValid(max, c) && |log| == elemSize
    ensures SlotOffset(c.tail, elemSize) + |log| <= |img| && CtrlValid(max, Inserted(max, c))
    ensures Records(Splice(img, SlotOffset(c.tail, elemSize), log), elemSize, max, Inserted(max, c))
            == Kept(max, Records(img, elemSize, max, c)) + [log]
  {
    InsertedValid(max, c);
    RecordThere(img, elemSize, max, c.tail, log);
    var r := Splice(img, SlotOffset(c.tail, elemSize), log);
    var before, after := Kept(max, Records(img, elemSize, max, c)), Records(r, elemSize, max, Inserted(max, c));
    forall i | 0 <= i < |before| ensures after[i] == before[i] {
      InsertedRecord(img, elemSize, max, c, log, i);
    }
  }

  /** Which slot record `i` of the ring after an insertion is in. */
  lemma InsertedSlot(max: nat, c: Ctrl, i: nat)
    requires CtrlValid(max, c) && i + 1 < Inserted(max, c).elem
    ensures Wrap(Inserted(max, c).head + i, max) == Wrap(c.head + if c.elem < max then i else i + 1, max)
    ensures Wrap(Inserted(max, c).head + i, max) != c.tail
  {
  }

  lemma SameSlot(a: Image, b: Image, elemSize: nat, max: nat, c: Ctrl, i: nat, n: Ctrl, j: nat)
    requires |a| == |b| && Room(|a|, elemSize, max) && CtrlValid(max, c) && CtrlValid(max, n)
    requires i < c.elem && j < n.elem && Wrap(c.head + i, max) == Wrap(n.head + j, max) < max
    requires RecordAt(a, elemSize, max, Wrap(c.head + i, max)) == RecordAt(b, elemSize, max, Wrap(c.head + i, max))
    ensures Records(a, elemSize, max, c)[i] == Records(b, elemSize, max, n)[j]
  {
  }

  lemma InsertedRecord(img: Image, elemSize: nat, max: nat, c: Ctrl, log: seq<Byte>, i: nat)
    requires Room(|img|, elemSize, max) && CtrlValid(max, c) && |log| == elemSize && i + 1 < Inserted(max, c).elem
    ensures SlotOffset(c.tail, elemSize) + |log| <= |img| && CtrlValid(max, Inserted(max, c))
    ensures Records(Splice(img, SlotOffset(c.tail, elemSize), log), elemSize, max, Inserted(max, c))[i]
            == Kept(max, Records(img, elemSize, max, c))[i]
  {
    var j := if c.elem < max then i else i + 1;
    InsertedValid(max, c);
    InsertedSlot(max, c, i);
    RecordElsewhere(img, elemSize, max, Wrap(c.head + j, max), c.tail, log);
    SameSlot(img, Splice(img, SlotOffset(c.tail, elemSize), log), elemSize, max, c, j, Inserted(max, c), i);
  }

  /** The records not yet read. */
  function Unread(img: Image, elemSize: nat, max: nat, c: Ctrl): seq<seq<Byte>>
    requires Room(|img|, elemSize, max) && CtrlValid(max, c)
  {
    Records(img, elemSize, max, c)[c.d..]
  }

  /** The cursor keeps naming the same record unless that record was the one overwritten, and a
      reader that had read everything will next read the new record. */
  lemma InsertedUnread(img: Image, elemSize: nat, max: nat, c: Ctrl, log: seq<Byte>)
    requires Room(|img|, elemSize, max) && CtrlValid(max, c) && |log| == elemSize
    ensures SlotOffset(c.tail, elemSize) + |log| <= |img| && CtrlValid(max, Inserted(max, c))
    ensures Unread(Splice(img, SlotOffset(c.tail, elemSize), log), elemSize, max, Inserted(max, c))
            == (if c.elem == max && c.d == 0 then Unread(img, elemSize, max, c)[1..] else Unread(img, elemSize, max, c)) + [log]
  {
    InsertedRecords(img, elemSize, max, c, log);
    KeptUnread(max, Records(img, elemSize, max, c), c.d, log);
  }

  lemma KeptUnread<T>(max: nat, s: seq<T>, d: nat, x: T)
    requires d <= |s| <= max && max > 0
    ensures (Kept(max, s) + [x])[if |s| == max && d > 0 then d - 1 else d..]
            == (if |s| == max && d == 0 then s[d..][1..] else s[d..]) + [x]
  {
  }

  // ----- stopping in the middle of an insertion -----

  /** All that an insertion writes: the record, then a commit. */
  function InsertWrites(elemSize: nat, max: nat, c: nat, ctrl: Ctrl, log: seq<Byte>): seq<Write>
    requires c < 2 && CtrlFits(Inserted(max, ctrl))
  {
    [Write(SlotOffset(ctrl.tail, elemSize), log)] + CommitWrites(c, Inserted(max, ctrl))
  }

  /** The device when an insertion stopped after `k` bytes. */
  function Interrupted(img: Image, elemSize: nat, max: nat, c: nat, ctrl: Ctrl, log: seq<Byte>, k: nat): (r: Image)
    requires c < 2 && CtrlFits(Inserted(max, ctrl)) && |img| >= HEADER_SIZE
    requires Room(|img|, elemSize, max) && ctrl.tail < max && |log| == elemSize
    ensures |r| == |img|
  {
    SlotsApart(elemSize, ctrl.tail, max);
    Crash(img, InsertWrites(elemSize, max, c, ctrl, log), k)
  }

  lemma InterruptedSplit(img: Image, elemSize: nat, max: nat, c: nat, ctrl: Ctrl, log: seq<Byte>, k: nat)
    requires c < 2 && CtrlFits(Inserted(max, ctrl)) && |img| >= HEADER_SIZE
    requires Room(|img|, elemSize, max) && ctrl.tail < max && |log| == elemSize
    ensures SlotOffset(ctrl.tail, elemSize) + elemSize <= |img|
    ensures var off := SlotOffset(ctrl.tail, elemSize);
            Interrupted(img, elemSize, max, c, ctrl, log, k)
            == if k < elemSize then Splice(img, off, log[..k])
               else Crash(Splice(img, off, log), CommitWrites(c, Inserted(max, ctrl)), k - elemSize)
  {
    SlotsApart(elemSize, ctrl.tail, max);
    assert InsertWrites(elemSize, max, c, ctrl, log)[1..] == CommitWrites(c, Inserted(max, ctrl));
  }

  /** Writing a record leaves the header alone, and so the control record in force. */
  lemma RecordWrite(img: Image, elemSize: nat, max: nat, j: nat, bytes: seq<Byte>)
    requires |img| > HEADER_SIZE && Room(|img|, elemSize, max) && j < max && |bytes| <= elemSize
    ensures SlotOffset(j, elemSize) + |bytes| <= |img|
    ensures HeaderOf(Splice(img, SlotOffset(j, elemSize), bytes)) == HeaderOf(img)
    ensures ActiveIn(Splice(img, SlotOffset(j, elemSize), bytes), elemSize) == ActiveIn(img, elemSize)
  {
    SlotsApart(elemSize, j, max);
    SpliceElsewhere(img, SlotOffset(j, elemSize), bytes, 0, HEADER_SIZE);
    assert img[0..HEADER_SIZE] == img[..HEADER_SIZE];
  }

  /** An insertion may stop after any byte: up to the first byte of the pointer the old log is found,
      in which at most the oldest record of a full ring is damaged; from then on the new log is found. */
  lemma InsertCrash(img: Image, elemSize: nat, max: nat, c: nat, ctrl: Ctrl, log: seq<Byte>, k: nat, r: Image)
    requires |img| > HEADER_SIZE && Room(|img|, elemSize, max) && CtrlValid(max, ctrl) && max < WORD
    requires CtrlValid(max, Inserted(max, ctrl)) && ctrl.tail < max
    requires c < 2 && ActiveIn(img, elemSize) == Some(Active(1 - c, ctrl)) && |log| == elemSize
    requires r == Interrupted(img, elemSize, max, c, ctrl, log, k)
    ensures k <= elemSize + CTRL_SIZE ==>
              && ActiveIn(r, elemSize) == Some(Active(1 - c, ctrl))
              && Kept(max, Records(r, elemSize, max, ctrl)) == Kept(max, Records(img, elemSize, max, ctrl))
    ensures k > elemSize + CTRL_SIZE ==>
              && ActiveIn(r, elemSize) == Some(Active(c, Inserted(max, ctrl)))
              && Records(r, elemSize, max, Inserted(max, ctrl)) == Kept(max, Records(img, elemSize, max, ctrl)) + [log]
  {
    InterruptedSplit(img, elemSize, max, c, ctrl, log, k);
    if k < elemSize {
      RecordWrite(img, elemSize, max, ctrl.tail, log[..k]);
      TailWrite(img, elemSize, max, ctrl, log[..k]);
    } else {
      CommitAfterRecord(img, elemSize, max, c, ctrl, log, k - elemSize, r);
    }
  }

  lemma CommitAfterRecord(img: Image, elemSize: nat, max: nat, c: nat, ctrl: Ctrl, log: seq<Byte>, k: nat, r: Image)
    requires |img| > HEADER_SIZE && Room(|img|, elemSize, max) && CtrlValid(max, ctrl) && CtrlFits(Inserted(max, ctrl))
    requires CtrlValid(max, Inserted(max, ctrl)) && SlotOffset(ctrl.tail, elemSize) + |log| <= |img|
    requires c < 2 && ActiveIn(img, elemSize) == Some(Active(1 - c, ctrl)) && |log| == elemSize
    requires r == Crash(Splice(img, SlotOffset(ctrl.tail, elemSize), log), CommitWrites(c, Inserted(max, ctrl)), k)
    ensures k <= CTRL_SIZE ==>
              && ActiveIn(r, elemSize) == Some(Active(1 - c, ctrl))
              && Kept(max, Records(r, elemSize, max, ctrl)) == Kept(max, Records(img, elemSize, max, ctrl))
    ensures k > CTRL_SIZE ==>
              && ActiveIn(r, elemSize) == Some(Active(c, Inserted(max, ctrl)))
              && Records(r, elemSize, max, Inserted(max, ctrl)) == Kept(max, Records(img, elemSize, max, ctrl)) + [log]
  {
    RecordWrite(img, elemSize, max, ctrl.tail, log);
    TailWrite(img, elemSize, max, ctrl, log);
    InsertedRecords(img, elemSize, max, ctrl, log);
    var a := Splice(img, SlotOffset(ctrl.tail, elemSize), log);
    CommitCrash(a, elemSize, c, ctrl, Inserted(max, ctrl), k);
    RecordsBehindHeader(a, r, elemSize, max, if k <= CTRL_SIZE then ctrl else Inserted(max, ctrl));
  }

  /** The first insertion after a fresh header, whose commit writes the copy in force, may stop
      before or after the write of the control record: only then is the new log found. */
  lemma FirstInsertCrash(img: Image, elemSize: nat, max: nat, ctrl: Ctrl, log: seq<Byte>, k: nat, r: Image)
    requires |img| > HEADER_SIZE && Room(|img|, elemSize, max) && CtrlValid(max, ctrl) && max < WORD
    requires CtrlValid(max, Inserted(max, ctrl)) && ctrl.tail < max
    requires ActiveIn(img, elemSize) == Some(Active(0, ctrl)) && |log| == elemSize
    requires k <= elemSize || elemSize + CTRL_SIZE <= k
    requires r == Interrupted(img, elemSize, max, 0, ctrl, log, k)
    ensures k <= elemSize ==>
              && ActiveIn(r, elemSize) == Some(Active(0, ctrl))
              && Kept(max, Records(r, elemSize, max, ctrl)) == Kept(max, Records(img, elemSize, max, ctrl))
    ensures k > elemSize ==>
              && ActiveIn(r, elemSize) == Some(Active(0, Inserted(max, ctrl)))
              && Records(r, elemSize, max, Inserted(max, ctrl)) == Kept(max, Records(img, elemSize, max, ctrl)) + [log]
  {
    InterruptedSplit(img, elemSize, max, 0, ctrl, log, k);
    if k < elemSize {
      RecordWrite(img, elemSize, max, ctrl.tail, log[..k]);
      TailWrite(img, elemSize, max, ctrl, log[..k]);
    } else {
      FirstCommitAfterRecord(img, elemSize, max, ctrl, log, k - elemSize, r);
    }
  }

  lemma FirstCommitAfterRecord(img: Image, elemSize: nat, max: nat, ctrl: Ctrl, log: seq<Byte>, k: nat, r: Image)
    requires |img| > HEADER_SIZE && Room(|img|, elemSize, max) && CtrlValid(max, ctrl) && CtrlFits(Inserted(max, ctrl))
    requires CtrlValid(max, Inserted(max, ctrl)) && SlotOffset(ctrl.tail, elemSize) + |log| <= |img|
    requires ActiveIn(img, elemSize) == Some(Active(0, ctrl)) && |log| == elemSize && (k == 0 || k >= CTRL_SIZE)
    requires r == Crash(Splice(img, SlotOffset(ctrl.tail, elemSize), log), CommitWrites(0, Inserted(max, ctrl)), k)
    ensures k == 0 ==>
              && ActiveIn(r, elemSize) == Some(Active(0, ctrl))
              && Kept(max, Records(r, elemSize, max, ctrl)) == Kept(max, Records(img, elemSize, max, ctrl))
    ensures k > 0 ==>
              && ActiveIn(r, elemSize) == Some(Active(0, Inserted(max, ctrl)))
              && Records(r, elemSize, max, Inserted(max, ctrl)) == Kept(max, Records(img, elemSize, max, ctrl)) + [log]
  {
    RecordWrite(img, elemSize, max, ctrl.tail, log);
    TailWrite(img, elemSize, max, ctrl, log);
    InsertedRecords(img, elemSize, max, ctrl, log);
    var a := Splice(img, SlotOffset(ctrl.tail, elemSize), log);
    FirstCommitCrash(a, elemSize, ctrl, Inserted(max, ctrl), k);
    RecordsBehindHeader(a, r, elemSize, max, if k == 0 then ctrl else Inserted(max, ctrl));
  }
}
