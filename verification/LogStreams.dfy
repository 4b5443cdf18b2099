/** The log stream (core/include/logstream.h) on a memory block: what each operation does to the
    records, to the read cursor and to the bytes of the device. */
module LogStreams {
  import opened Options
  import opened LogImages
  import opened LogRings
  import opened MemBlocks

  // ----- a log as its user sees it -----

  const PRTOS_LOGSTREAM_CURRENT: nat := 0
  const PRTOS_LOGSTREAM_START: nat := 1
  const PRTOS_LOGSTREAM_END: nat := 2

  /** At most `max` records, oldest first, a read cursor, and whether overwriting is forbidden. */
  datatype Log = Log(max: nat, records: seq<seq<Byte>>, d: nat, locked: bool)

  predicate LogValid(l: Log) {
    l.d <= |l.records| <= l.max
  }

  /** Inserting into a bounded log.  A device without room keeps nothing. */
  function AfterInsert(l: Log, log: seq<Byte>): Log {
    if l.max == 0 || InsertResult(l) < 0 then l
    else l.(records := Kept(l.max, l.records) + [log], d := if InsertResult(l) > 0 && l.d > 0 then l.d - 1 else l.d)
  }

  /** -1 when the log is full and locked, 1 when the oldest record was lost, otherwise 0. */
  function InsertResult(l: Log): int {
    if l.max == 0 || |l.records| < l.max then 0 else if l.locked then -1 else 1
  }

  function NextUnread(l: Log): Option<seq<Byte>> {
    if l.d < |l.records| then Some(l.records[l.d]) else None
  }

  function AfterGet(l: Log): Log {
    if l.d < |l.records| then l.(d := l.d + 1) else l
  }

  predicate WhenceKnown(whence: nat) {
    whence <= PRTOS_LOGSTREAM_END
  }

  function Destination(l: Log, offset: int, whence: nat): nat {
    var off := offset + (if whence == PRTOS_LOGSTREAM_CURRENT then l.d else if whence == PRTOS_LOGSTREAM_END then |l.records| else 0);
    if off < 0 then 0 else if off > |l.records| then |l.records| else off
  }

  /** What is still to be read. */
  function Pending(l: Log): seq<seq<Byte>>
    requires LogValid(l)
  {
    l.records[l.d..]
  }

  /** What an insertion reports: 0 if there was room, 1 if the oldest record gave way, -1 if a full log
      was locked and nothing changed. */
  lemma InsertReports(l: Log, log: seq<Byte>)
    requires LogValid(l) && l.max > 0
    ensures var r, l' := InsertResult(l), AfterInsert(l, log);
            && (|l.records| < l.max ==> r == 0 && l' == l.(records := l.records + [log]))
            && (|l.records| == l.max && !l.locked ==>
                  r == 1 && l' == l.(records := l.records[1..] + [log], d := if l.d == 0 then 0 else l.d - 1))
            && (|l.records| == l.max && l.locked ==> r == -1 && l' == l)
  {
  }

  function Distance(a: int, b: int): int {
    if a < b then b - a else a - b
  }

  /** A seek goes as near as the log allows to the place asked for, counted from the first record,
      from the cursor or from the end. */
  lemma DestinationIsNearest(l: Log, offset: int, x: nat)
    requires LogValid(l) && x <= |l.records|
    ensures forall whence :: Destination(l, offset, whence) <= |l.records|
    ensures Distance(Destination(l, offset, PRTOS_LOGSTREAM_START), offset) <= Distance(x, offset)
    ensures Distance(Destination(l, offset, PRTOS_LOGSTREAM_CURRENT), l.d + offset) <= Distance(x, l.d + offset)
    ensures Distance(Destination(l, offset, PRTOS_LOGSTREAM_END), |l.records| + offset) <= Distance(x, |l.records| + offset)
  {
  }

  /** Seeking from the start or the end leaves just those records to be read again. */
  lemma SeekThenPending(l: Log, n: nat)
    requires LogValid(l) && n <= |l.records|
    ensures Pending(l.(d := Destination(l, n, PRTOS_LOGSTREAM_START))) == l.records[n..]
    ensures Pending(l.(d := Destination(l, 0 - n, PRTOS_LOGSTREAM_END))) == l.records[|l.records| - n..]
  {
  }

  // ----- a fresh header -----

  function FreshWords(elemSize: nat, max: nat): (ws: seq<nat>)
    requires elemSize < WORD && max < WORD
    ensures |ws| == 14 && AllWords(ws)
  {
    [MAGIC1, elemSize, max, 0, 0, 0, 0, 0, 0, 0, 0, 0, 0, MAGIC2]
  }

  function FreshHeader(elemSize: nat, max: nat): (r: seq<Byte>)
    requires elemSize < WORD && max < WORD
    ensures |r| == HEADER_SIZE
  {
    Bytes(FreshWords(elemSize, max))
  }

  /** The fresh header describes an empty log, kept in copy 0. */
  lemma FreshHeaderHasLog(img: Image, elemSize: nat)
    requires 0 < elemSize < WORD && HEADER_SIZE < |img| < WORD
    ensures ActiveIn(Splice(img, 0, FreshHeader(elemSize, Capacity(|img|, elemSize))), elemSize) == Some(Active(0, EMPTY))
  {
    var max := Capacity(|img|, elemSize);
    HeaderWritten(img, 0, FreshWords(elemSize, max), FreshHeader(elemSize, max));
  }

  // ----- the stream on its device -----

  const INT_MAX: nat := 0x7FFF_FFFF

  /** What the device of a stream with room for records holds: a log in the copy that the next
      commit, to copy `cHdr`, will spare, or one in copy 0 whose header has just been written. */
  predicate Stored(a: Option<Active>, cHdr: nat) {
    a.Some? && cHdr < 2 && (a.value.c == 1 - cHdr || a.value.c == 0)
  }

  /** A commit stores the control record and nothing behind the header. */
  lemma Committed(img: Image, elemSize: nat, cHdr: nat, ctrl: Ctrl)
    requires Stored(ActiveIn(img, elemSize), cHdr) && CtrlFits(ctrl)
    ensures |img| > HEADER_SIZE
    ensures LogWith(Splice(Splice(img, CtrlOffset(cHdr), EncodeCtrl(ctrl)), AT_C_HDR, Encode(cHdr)), img, elemSize, cHdr, ctrl)
  {
    var a := ActiveIn(img, elemSize).value;
    assert Take(Encode(cHdr), 4) == Encode(cHdr);
    if a.c == 1 - cHdr {
      RecordThenPointer(img, elemSize, cHdr, a.ctrl, ctrl, 4);
    } else {
      ActiveThenPointer(img, elemSize, ctrl, 4);
    }
  }

  lemma AfterCommit(img: Image, elemSize: nat, max: nat, cHdr: nat, ctrl: Ctrl)
    requires Stored(ActiveIn(img, elemSize), cHdr) && Room(|img|, elemSize, max) && CtrlValid(max, ctrl) && max < WORD
    ensures CtrlFits(ctrl) && |img| > HEADER_SIZE
    ensures var r := Splice(Splice(img, CtrlOffset(cHdr), EncodeCtrl(ctrl)), AT_C_HDR, Encode(cHdr));
            && ActiveIn(r, elemSize) == Some(Active(cHdr, ctrl))
            && Records(r, elemSize, max, ctrl) == Records(img, elemSize, max, ctrl)
  {
    Committed(img, elemSize, cHdr, ctrl);
    var r := Splice(Splice(img, CtrlOffset(cHdr), EncodeCtrl(ctrl)), AT_C_HDR, Encode(cHdr));
    RecordsBehindHeader(r, img, elemSize, max, ctrl);
  }

  /** A recognised header points at one of the two copies, and the control record there makes sense. */
  predicate Trusted(img: Image, elemSize: nat) {
    Recognised(img, elemSize) && Capacity(|img|, elemSize) > 0 ==>
      ActiveIn(img, elemSize).Some? && CtrlValid(Capacity(|img|, elemSize), ActiveIn(img, elemSize).value.ctrl)
  }

  /** The log of a control record and the slots it counts. */
  function LogOf(img: Image, elemSize: nat, max: nat, ctrl: Ctrl, locked: bool): (l: Log)
    requires Room(|img|, elemSize, max) && CtrlValid(max, ctrl)
    ensures LogValid(l)
  {
    Log(max, Records(img, elemSize, max, ctrl), ctrl.d, locked)
  }

  /** The log that a block holds. */
  function Found(img: Image, elemSize: nat): Log
    requires elemSize > 0 && Trusted(img, elemSize)
  {
    var max := Capacity(|img|, elemSize);
    if max > 0 && Recognised(img, elemSize) then
      var ctrl := ActiveIn(img, elemSize).value.ctrl;
      CapacityHasRoom(|img|, elemSize);
      LogOf(img, elemSize, max, ctrl, HeaderOf(img)[W_LOCK] != 0)
    else Log(max, [], 0, false)
  }

  method SeekTo(kdev: MemBlock, off: nat)
    requires kdev.Valid() && off <= kdev.mem.Length
    modifies kdev`pos
    ensures kdev.Valid() && kdev.pos == off
  {
    var o := kdev.Seek(off, DEV_SEEK_START);
  }

  lemma WholePrefix<T>(s: seq<T>)
    ensures s[..|s|] == s
  {
  }

  /** A seek and a write, which the block never cuts short. */
  method WriteAt(kdev: MemBlock, off: nat, bytes: seq<Byte>)
    requires kdev.Valid() && off + |bytes| <= kdev.mem.Length
    modifies kdev`pos, kdev`history, kdev.mem
    ensures kdev.Valid() && kdev.mem[..] == Splice(old(kdev.mem[..]), off, bytes)
    ensures kdev.history == old(kdev.history) + [Write(off, bytes)]
  {
    SeekTo(kdev, off);
    WholePrefix(bytes);
    var n := kdev.Write(bytes);
  }

  /** A seek and a read, which the block never cuts short. */
  method ReadAt(kdev: MemBlock, off: nat, len: nat) returns (bytes: seq<Byte>)
    requires kdev.Valid() && off + len <= kdev.mem.Length
    modifies kdev`pos
    ensures kdev.Valid() && bytes == kdev.mem[off..off + len]
  {
    SeekTo(kdev, off);
    bytes := kdev.Read(len);
  }

  /** Writes slot `i`. */
  method WriteSlot(kdev: MemBlock, elemSize: nat, i: nat, log: seq<Byte>)
    requires kdev.Valid() && SlotOffset(i, elemSize) + |log| <= kdev.mem.Length
    modifies kdev`pos, kdev`history, kdev.mem
    ensures kdev.Valid() && kdev.mem[..] == Splice(old(kdev.mem[..]), SlotOffset(i, elemSize), log)
    ensures kdev.history == old(kdev.history) + [Write(SlotOffset(i, elemSize), log)]
  {
    SlotOffsetIs(i, elemSize);
    WriteAt(kdev, HEADER_SIZE + i * elemSize, log);
  }

  /** The two writes of a commit. */
  method WriteCommit(kdev: MemBlock, c: nat, ctrl: Ctrl)
    requires kdev.Valid() && HEADER_SIZE <= kdev.mem.Length && c < 2 && CtrlFits(ctrl)
    modifies kdev`pos, kdev`history, kdev.mem
    ensures kdev.Valid() && kdev.history == old(kdev.history) + CommitWrites(c, ctrl)
    ensures kdev.mem[..] == Splice(Splice(old(kdev.mem[..]), CtrlOffset(c), EncodeCtrl(ctrl)), AT_C_HDR, Encode(c))
  {
    WriteAt(kdev, CtrlOffset(c), EncodeCtrl(ctrl));
    WriteAt(kdev, AT_C_HDR, Encode(c));
  }

  /** How many records the block has room for. */
  method Measure(kdev: MemBlock, elemSize: nat) returns (max: nat)
    requires kdev.Valid() && 0 < elemSize <= INT_MAX
    modifies kdev`pos
    ensures kdev.Valid() && max == Capacity(kdev.mem.Length, elemSize)
  {
    kdev.Reset();
    var size := kdev.Seek(0, DEV_SEEK_END);
    CapacityIs(size, elemSize);
    max := if size > HEADER_SIZE then (size - HEADER_SIZE) / elemSize else 0;
  }

  /** The header of a block with room for records: taken as it is if it is a log's, else replaced. */
  method Recover(kdev: MemBlock, elemSize: nat, max: nat) returns (locked: bool, cHdr: nat, ctrl: Ctrl)
    requires kdev.Valid() && 0 < elemSize <= INT_MAX && 0 < max == Capacity(kdev.mem.Length, elemSize)
    requires Trusted(kdev.mem[..], elemSize)
    modifies kdev`pos, kdev`history, kdev.mem
    ensures kdev.Valid()
    ensures Recognised(old(kdev.mem[..]), elemSize) ==>
              && kdev.mem[..] == old(kdev.mem[..]) && kdev.history == old(kdev.history)
              && cHdr < 2 && ActiveIn(kdev.mem[..], elemSize) == Some(Active(1 - cHdr, ctrl))
              && (locked <==> HeaderOf(kdev.mem[..])[W_LOCK] != 0)
    ensures !Recognised(old(kdev.mem[..]), elemSize) ==>
              && kdev.mem[..] == Splice(old(kdev.mem[..]), 0, FreshHeader(elemSize, max))
              && kdev.history == old(kdev.history) + [Write(0, FreshHeader(elemSize, max))]
              && !locked && cHdr == 0 && ctrl == EMPTY
  {
    locked, cHdr, ctrl := false, 0, EMPTY;
    var bytes := ReadAt(kdev, 0, HEADER_SIZE);
    assert bytes == kdev.mem[..][..HEADER_SIZE];
    var hdr := Words(bytes);
    if hdr[W_MAGIC1] != MAGIC1 || hdr[W_MAGIC2] != MAGIC2 || hdr[W_MAX] != max || hdr[W_ELEM_SIZE] != elemSize {
      WriteAt(kdev, 0, FreshHeader(elemSize, max));
    } else {
      locked := hdr[W_LOCK] != 0;
      cHdr := if hdr[W_C_HDR] == 0 then 1 else 0;
      ctrl := CtrlIn(hdr, hdr[W_C_HDR]);
    }
  }

  /** Once the record is written, all that is left is a commit. */
  lemma InsertReady(img: Image, elemSize: nat, max: nat, ctrl: Ctrl, locked: bool, log: seq<Byte>)
    requires |img| > HEADER_SIZE && Room(|img|, elemSize, max) && CtrlValid(max, ctrl) && max < WORD && |log| == elemSize
    ensures CtrlValid(max, Inserted(max, ctrl)) && CtrlFits(Inserted(max, ctrl))
    ensures ctrl.tail < max && SlotOffset(ctrl.tail, elemSize) + |log| <= |img|
    ensures var r := Splice(img, SlotOffset(ctrl.tail, elemSize), log);
            && ActiveIn(r, elemSize) == ActiveIn(img, elemSize)
            && (InsertResult(LogOf(img, elemSize, max, ctrl, locked)) >= 0 ==>
                  LogOf(r, elemSize, max, Inserted(max, ctrl), locked) == AfterInsert(LogOf(img, elemSize, max, ctrl, locked), log))
  {
    InsertedValid(max, ctrl);
    RecordWrite(img, elemSize, max, ctrl.tail, log);
    InsertedRecords(img, elemSize, max, ctrl, log);
  }

  /** A full ring gives up its oldest record. */
  method MakeRoom(max: nat, was: Ctrl) returns (ctrl: Ctrl, smashed: nat)
    requires CtrlValid(max, was)
    ensures ctrl == Dropped(max, was) && smashed == if was.elem >= max then 1 else 0
  {
    ctrl := was;
    smashed := 0;
    if ctrl.elem >= max {
      ctrl := ctrl.(head := if ctrl.head + 1 < max then ctrl.head + 1 else 0);
      if ctrl.d > 0 {
        ctrl := ctrl.(d := ctrl.d - 1);
      }
      ctrl := ctrl.(elem := ctrl.elem - 1);
      smashed := smashed + 1;
    }
  }

  lemma InOrder(before: seq<Write>, elemSize: nat, max: nat, c: nat, was: Ctrl, log: seq<Byte>)
    requires c < 2 && CtrlFits(Inserted(max, was))
    ensures before + [Write(SlotOffset(was.tail, elemSize), log)] + CommitWrites(c, Inserted(max, was))
            == before + InsertWrites(elemSize, max, c, was, log)
  {
  }

  /** The next record to read is the one in the slot `d` places after the head. */
  lemma NextRecord(img: Image, elemSize: nat, max: nat, ctrl: Ctrl)
    requires Room(|img|, elemSize, max) && CtrlValid(max, ctrl) && ctrl.d < ctrl.elem
    ensures var ptr := (ctrl.d + ctrl.head) % max;
            && SlotOffset(ptr, elemSize) + elemSize <= |img|
            && img[SlotOffset(ptr, elemSize)..SlotOffset(ptr, elemSize) + elemSize] == Records(img, elemSize, max, ctrl)[ctrl.d]
  {
    WrapIsModulo(ctrl.d + ctrl.head, max);
    SlotsApart(elemSize, Wrap(ctrl.d + ctrl.head, max), max);
  }

  class LogStream {
    var elemSize: nat
    var max: nat
    var locked: bool
    var cHdr: nat
    var ctrl: Ctrl
    const kdev: MemBlock

    /** All of the invariant but that the control record is the one on the device. */
    ghost predicate Ready()
      reads this, kdev, kdev.mem
    {
      && kdev.Valid() && 0 < elemSize <= INT_MAX && max == Capacity(kdev.mem.Length, elemSize)
      && (max == 0 ==> ctrl == EMPTY)
      && (max > 0 ==> Stored(ActiveIn(kdev.mem[..], elemSize), cHdr) && CtrlValid(max, ctrl))
    }

    ghost predicate Valid()
      reads this, kdev, kdev.mem
    {
      Ready() && (max > 0 ==> ActiveIn(kdev.mem[..], elemSize).value.ctrl == ctrl)
    }

    /** The next commit spares the control record in force. */
    ghost predicate Alternating()
      requires Ready()
      reads this, kdev, kdev.mem
    {
      max > 0 ==> ActiveIn(kdev.mem[..], elemSize).value.c == 1 - cHdr
    }

    ghost function View(): (l: Log)
      requires Ready()
      reads this, kdev, kdev.mem
      ensures LogValid(l)
    {
      CapacityHasRoom(kdev.mem.Length, elemSize);
      if max == 0 then Log(0, [], 0, locked) else LogOf(kdev.mem[..], elemSize, max, ctrl, locked)
    }

    /** Between operations, starting again on the block finds the log as it is. */
    lemma RestartFinds()
      requires Valid()
      ensures Trusted(kdev.mem[..], elemSize) && Found(kdev.mem[..], elemSize).(locked := locked) == View()
    {
    }

    /** A header that the block already holds must point at a control record that makes sense; any
        other contents are replaced by an empty log. */
    constructor Init(kdev: MemBlock, elemSize: nat)
      requires kdev.Valid() && 0 < elemSize <= INT_MAX
      requires Trusted(kdev.mem[..], elemSize)
      modifies kdev`pos, kdev`history, kdev.mem
      ensures this.kdev == kdev && this.elemSize == elemSize && Valid() && View() == Found(old(kdev.mem[..]), elemSize)
      ensures Recognised(old(kdev.mem[..]), elemSize) ==> Alternating()
      ensures max < WORD && kdev.history == old(kdev.history) +
              if max == 0 || Recognised(old(kdev.mem[..]), elemSize) then [] else [Write(0, FreshHeader(elemSize, max))]
    {
      this.kdev := kdev;
      this.elemSize := elemSize;
      new;
      ghost var img := kdev.mem[..];
      var n := Measure(kdev, elemSize);
      var l, c, found := false, 0, EMPTY;
      if n > 0 {
        FreshHeaderHasLog(img, elemSize);
        l, c, found := Recover(kdev, elemSize, n);
      }
      max, locked, cHdr, ctrl := n, l, c, found;
    }

    method Commit()
      requires Ready()
      modifies this`cHdr, kdev`pos, kdev`history, kdev.mem
      ensures Valid() && View() == old(View()) && Alternating()
      ensures max == 0 ==> kdev.history == old(kdev.history)
      ensures max > 0 ==> CtrlFits(ctrl) && kdev.history == old(kdev.history) + CommitWrites(old(cHdr), ctrl)
    {
      if max > 0 {
        ghost var img := kdev.mem[..];
        CapacityHasRoom(|img|, elemSize);
        AfterCommit(img, elemSize, max, cHdr, ctrl);
        WriteCommit(kdev, cHdr, ctrl);
        cHdr := if cHdr == 0 then 1 else 0;
      }
    }

    /** Puts `log` into the slot at the tail. */
    method Append(log: seq<Byte>) returns (smashed: nat)
      requires Valid() && max > 0 && |log| == elemSize && InsertResult(View()) >= 0
      modifies this`ctrl, kdev`pos, kdev`history, kdev.mem
      ensures ActiveIn(kdev.mem[..], elemSize) == old(ActiveIn(kdev.mem[..], elemSize))
      ensures Ready() && View() == AfterInsert(old(View()), log) && smashed == InsertResult(old(View()))
      ensures ctrl == Inserted(max, old(ctrl)) && CtrlFits(ctrl)
      ensures kdev.history == old(kdev.history) + [Write(SlotOffset(old(ctrl).tail, elemSize), log)]
    {
      CapacityHasRoom(kdev.mem.Length, elemSize);
      InsertReady(kdev.mem[..], elemSize, max, ctrl, locked, log);
      var c: Ctrl;
      c, smashed := MakeRoom(max, ctrl);
      WriteSlot(kdev, elemSize, c.tail, log);
      ctrl := Ctrl(if c.tail + 1 < max then c.tail + 1 else 0, c.elem + 1, c.head, c.d);
    }

    method InsertRecord(log: seq<Byte>) returns (smashed: nat)
      requires Valid() && max > 0 && |log| == elemSize && InsertResult(View()) >= 0
      modifies this`ctrl, this`cHdr, kdev`pos, kdev`history, kdev.mem
      ensures Valid() && View() == AfterInsert(old(View()), log) && smashed == InsertResult(old(View())) && Alternating()
      ensures CtrlFits(Inserted(max, old(ctrl)))
      ensures kdev.history == old(kdev.history) + InsertWrites(elemSize, max, old(cHdr), old(ctrl), log)
    {
      ghost var was, before := ctrl, kdev.history;
      smashed := Append(log);
      InOrder(before, elemSize, max, cHdr, was, log);
      Commit();
    }

    /** `log` is a whole record.  On a block without room for records it goes to wherever the block is. */
    method Insert(log: seq<Byte>) returns (smashed: int)
      requires Valid() && |log| == elemSize
      modifies this`ctrl, this`cHdr, kdev`pos, kdev`history, kdev.mem
      ensures Valid() && View() == AfterInsert(old(View()), log) && smashed == InsertResult(old(View()))
      ensures smashed < 0 ==> kdev.history == old(kdev.history) && cHdr == old(cHdr)
      ensures smashed >= 0 || old(Alternating()) ==> Alternating()
      ensures max == 0 ==> kdev.history == old(kdev.history) + [Write(old(kdev.pos), log[..old(kdev.Allowed(elemSize))])]
      ensures max > 0 && smashed >= 0 ==>
                && CtrlFits(Inserted(max, old(ctrl)))
                && kdev.history == old(kdev.history) + InsertWrites(elemSize, max, old(cHdr), old(ctrl), log)
    {
      if max > 0 {
        if ctrl.elem >= max && locked {
          return -1;
        }
        smashed := InsertRecord(log);
      } else {
        smashed := 0;
        var n := kdev.Write(log);
        Commit();
      }
    }

    /** Reads the record at the cursor and moves the cursor on. */
    method Fetch() returns (bytes: seq<Byte>)
      requires Valid() && ctrl.d < ctrl.elem
      modifies this`ctrl, kdev`pos
      ensures Ready() && Some(bytes) == NextUnread(old(View())) && View() == AfterGet(old(View()))
    {
      CapacityHasRoom(kdev.mem.Length, elemSize);
      NextRecord(kdev.mem[..], elemSize, max, ctrl);
      var ptr := (ctrl.d + ctrl.head) % max;
      SlotOffsetIs(ptr, elemSize);
      ctrl := ctrl.(d := ctrl.d + 1);
      bytes := ReadAt(kdev, HEADER_SIZE + ptr * elemSize, elemSize);
    }

    /** The next record not yet read, if there is one. */
    method Get() returns (log: Option<seq<Byte>>)
      requires Valid()
      modifies this`ctrl, this`cHdr, kdev`pos, kdev`history, kdev.mem
      ensures Valid() && log == NextUnread(old(View())) && View() == AfterGet(old(View()))
      ensures log.None? ==> kdev.history == old(kdev.history) && cHdr == old(cHdr)
      ensures old(Alternating()) ==> Alternating()
      ensures log.Some? ==> max > 0 && CtrlFits(ctrl) && Alternating() && kdev.history == old(kdev.history) + CommitWrites(old(cHdr), ctrl)
    {
      if ctrl.elem > 0 && ctrl.d < ctrl.elem {
        var bytes := Fetch();
        Commit();
        return Some(bytes);
      }
      log := None;
    }

    /** Moves the cursor; -1 if `whence` is none of the three. */
    method Seek(offset: int, whence: nat) returns (off: int)
      requires Valid()
      modifies this`ctrl, this`cHdr, kdev`pos, kdev`history, kdev.mem
      ensures Valid()
      ensures !WhenceKnown(whence) ==> off == -1 && View() == old(View()) && kdev.history == old(kdev.history) && cHdr == old(cHdr)
      ensures old(Alternating()) ==> Alternating()
      ensures WhenceKnown(whence) ==>
                && off == Destination(old(View()), offset, whence)
                && View() == old(View()).(d := Destination(old(View()), offset, whence)) && Alternating()
      ensures WhenceKnown(whence) && max > 0 ==> CtrlFits(ctrl) && kdev.history == old(kdev.history) + CommitWrites(old(cHdr), ctrl)
    {
      off := offset;
      if whence == PRTOS_LOGSTREAM_START {
      } else if whence == PRTOS_LOGSTREAM_CURRENT {
        off := off + ctrl.d;
      } else if whence == PRTOS_LOGSTREAM_END {
        off := off + ctrl.elem;
      } else {
        return -1;
      }
      if off > ctrl.elem {
        off := ctrl.elem;
      }
      if off < 0 {
        off := 0;
      }
      MoveTo(off);
    }

    method MoveTo(d: nat)
      requires Valid() && d <= ctrl.elem
      modifies this`ctrl, this`cHdr, kdev`pos, kdev`history, kdev.mem
      ensures Valid() && View() == old(View()).(d := d) && Alternating()
      ensures max == 0 ==> kdev.history == old(kdev.history)
      ensures max > 0 ==> CtrlFits(ctrl) && kdev.history == old(kdev.history) + CommitWrites(old(cHdr), ctrl)
    {
      ctrl := ctrl.(d := d);
      Commit();
    }

    method Lock()
      requires Valid()
      modifies this`locked
      ensures Valid() && View() == old(View()).(locked := true)
    {
      locked := true;
    }

    method Unlock()
      requires Valid()
      modifies this`locked
      ensures Valid() && View() == old(View()).(locked := false)
    {
      locked := false;
    }
  }
}
