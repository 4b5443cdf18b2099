/** The layout of a log stream on its device (core/include/logstream.h), what `log_stream_init`
    makes of any contents of the device, and what is left of a log when the machine stops between
    any two bytes written to it. */
module LogImages {
  import opened Arithmetic
  import opened Options

  type Byte = b: int | 0 <= b < 256

  type Image = seq<Byte>

  // ----- words -----

  const WORD: int := 0x1_0000_0000

  /** A 32-bit word, least significant byte first. */
  function Encode(x: nat): (r: seq<Byte>)
    requires x < WORD
    ensures |r| == 4
  {
    if x < 256 then [x, 0, 0, 0] else [x % 256] + Encode(x / 256)[..3]
  }

  function Decode(b: seq<Byte>): (x: nat)
    requires |b| == 4
    ensures x < WORD
  {
    var b0: int, b1: int, b2: int, b3: int := b[0], b[1], b[2], b[3];
    b0 + 0x100 * b1 + 0x1_0000 * b2 + 0x100_0000 * b3
  }

  lemma {:induction false} EncodeShort(x: nat)
    requires x < WORD
    ensures x < 0x1_0000 ==> Encode(x)[2] == Encode(x)[3] == 0
    ensures x < 0x100_0000 ==> Encode(x)[3] == 0
  {
    if x >= 256 {
      EncodeShort(x / 256);
    }
  }

  lemma {:induction false} DecodeEncode(x: nat)
    requires x < WORD
    ensures Decode(Encode(x)) == x
  {
    if x >= 256 {
      DecodeEncode(x / 256);
      EncodeShort(x / 256);
    }
  }

  predicate AllWords(ws: seq<nat>) {
    forall i | 0 <= i < |ws| :: ws[i] < WORD
  }

  /** The words of a structure, and the bytes of the words. */
  function Words(b: seq<Byte>): (ws: seq<nat>)
    ensures 4 * |ws| <= |b| < 4 * |ws| + 4 && AllWords(ws)
  {
    if |b| < 4 then [] else [Decode(b[..4])] + Words(b[4..])
  }

  function Bytes(ws: seq<nat>): (b: seq<Byte>)
    requires AllWords(ws)
    ensures |b| == 4 * |ws|
  {
    if ws == [] then [] else Encode(ws[0]) + Bytes(ws[1..])
  }

  lemma {:induction false} WordsBytes(ws: seq<nat>)
    requires AllWords(ws)
    ensures Words(Bytes(ws)) == ws
  {
    if ws != [] {
      var b := Bytes(ws);
      assert b[..4] == Encode(ws[0]) && b[4..] == Bytes(ws[1..]);
      DecodeEncode(ws[0]);
      WordsBytes(ws[1..]);
    }
  }

  lemma {:induction false} EncodeDecode(b: seq<Byte>)
    requires |b| == 4
    ensures Encode(Decode(b)) == b
  {
    var b0: int, b1: int, b2: int, b3: int := b[0], b[1], b[2], b[3];
    var x, y, z := Decode(b), b1 + 256 * (b2 + 256 * b3), b2 + 256 * b3;
    EncodeShift(b3, 0);
    EncodeShift(z, b3);
    EncodeShift(y, z);
    EncodeShift(x, y);
  }

  /** The low byte of a word, and the word without it. */
  lemma EncodeShift(x: nat, y: nat)
    requires x < WORD && 0 <= x - 256 * y < 256
    ensures Encode(x)[0] == x - 256 * y && Encode(x)[1..] == Encode(y)[..3]
  {
    DivModUnique(x, 256, y, x - 256 * y);
  }

  lemma {:induction false} BytesWords(b: seq<Byte>)
    requires |b| % 4 == 0
    ensures Bytes(Words(b)) == b
  {
    if b != [] {
      EncodeDecode(b[..4]);
      BytesWords(b[4..]);
    }
  }

  lemma {:induction false} WordIs(b: seq<Byte>, k: nat)
    requires 4 * k + 4 <= |b|
    ensures Words(b)[k] == Decode(b[4 * k..4 * k + 4])
  {
    if k > 0 {
      WordIs(b[4..], k - 1);
      assert b[4..][4 * (k - 1)..4 * (k - 1) + 4] == b[4 * k..4 * k + 4];
    }
  }

  lemma {:induction false} WordsConcat(a: seq<Byte>, b: seq<Byte>)
    requires |a| % 4 == 0
    ensures Words(a + b) == Words(a) + Words(b)
  {
    if a == [] {
      assert a + b == b;
    } else {
      assert (a + b)[..4] == a[..4] && (a + b)[4..] == a[4..] + b;
      WordsConcat(a[4..], b);
    }
  }

  lemma WordsOfThree(a: seq<Byte>, b: seq<Byte>, c: seq<Byte>)
    requires |a| % 4 == 0 && |b| % 4 == 0
    ensures Words(a + b + c) == Words(a) + Words(b) + Words(c)
  {
    WordsConcat(a, b);
    WordsConcat(a + b, c);
  }

  /** Replacing the bytes of whole words replaces those words. */
  lemma WordsReplaced(a: seq<Byte>, bytes: seq<Byte>, was: seq<Byte>, b: seq<Byte>, at: nat, n: nat)
    requires |a| == 4 * at && |bytes| == |was| == 4 * n
    ensures Words(a + bytes + b) == Words(a + was + b)[..at] + Words(bytes) + Words(a + was + b)[at + n..]
  {
    WordsOfThree(a, was, b);
    WordsCut(a, was, b, at, n);
    WordsOfThree(a, bytes, b);
  }

  lemma WordsCut(a: seq<Byte>, was: seq<Byte>, b: seq<Byte>, at: nat, n: nat)
    requires |a| == 4 * at && |was| == 4 * n
    ensures Words(a + was + b)[..at] == Words(a) && Words(a + was + b)[at + n..] == Words(b)
  {
    WordsOfThree(a, was, b);
    Cut(Words(a), Words(was), Words(b), at, n);
  }

  lemma Cut<T>(x: seq<T>, w: seq<T>, z: seq<T>, at: nat, n: nat)
    requires |x| == at && |w| == n
    ensures (x + w + z)[..at] == x && (x + w + z)[at + n..] == z
  {
  }

  lemma SameWord(a: seq<Byte>, i: nat, b: seq<Byte>, j: nat)
    requires 4 * i + 4 <= |a| && 4 * j + 4 <= |b| && a[4 * i..4 * i + 4] == b[4 * j..4 * j + 4]
    ensures Words(a)[i] == Words(b)[j]
  {
    WordIs(a, i);
    WordIs(b, j);
  }

  // ----- writing into an image -----

  function Splice(img: Image, off: nat, bytes: seq<Byte>): (r: Image)
    requires off + |bytes| <= |img|
    ensures |r| == |img|
    ensures forall i | 0 <= i < |img| :: r[i] == if off <= i < off + |bytes| then bytes[i - off] else img[i]
  {
    img[..off] + bytes + img[off + |bytes|..]
  }

  lemma SpliceElsewhere(img: Image, off: nat, bytes: seq<Byte>, a: nat, b: nat)
    requires off + |bytes| <= |img| && a <= b <= |img|
    requires b <= off || off + |bytes| <= a
    ensures Splice(img, off, bytes)[a..b] == img[a..b]
  {
  }

  lemma SpliceWithin(img: Image, off: nat, bytes: seq<Byte>, a: nat, b: nat)
    requires off + |bytes| <= |img| && a <= b <= |bytes|
    ensures Splice(img, off, bytes)[off + a..off + b] == bytes[a..b]
  {
  }

  lemma PrefixSlice<T>(s: seq<T>, n: nat, a: nat, b: nat)
    requires a <= b <= n <= |s|
    ensures s[..n][a..b] == s[a..b]
  {
  }

  lemma SplicePrefix(img: Image, off: nat, bytes: seq<Byte>, n: nat)
    requires off + |bytes| <= n <= |img|
    ensures Splice(img, off, bytes)[..n] == img[..off] + bytes + img[off + |bytes|..n]
    ensures img[..n] == img[..off] + img[off..off + |bytes|] + img[off + |bytes|..n]
  {
  }

  // ----- struct log_stream_hdr: fourteen words -----

  const MAGIC1: nat := 0xF9E8D7C6
  const MAGIC2: nat := 0x1A2B3C4D

  const HEADER_SIZE: nat := 56
  const CTRL_SIZE: nat := 16

  const W_MAGIC1: nat := 0
  const W_ELEM_SIZE: nat := 1
  const W_MAX: nat := 2
  const W_LOCK: nat := 3
  const W_C_HDR: nat := 4
  const W_CTRL: nat := 5
  const W_MAGIC2: nat := 13

  const AT_C_HDR: nat := 16
  const AT_CTRL: nat := 20

  /** `struct log_stream_ctrl`: `elem` records from `head` up to `tail`, and the read cursor `d`. */
  datatype Ctrl = Ctrl(tail: nat, elem: nat, head: nat, d: nat)

  const EMPTY: Ctrl := Ctrl(0, 0, 0, 0)

  predicate CtrlFits(c: Ctrl) {
    c.tail < WORD && c.elem < WORD && c.head < WORD && c.d < WORD
  }

  function CtrlWords(c: Ctrl): (ws: seq<nat>)
    ensures |ws| == 4
  {
    [c.tail, c.elem, c.head, c.d]
  }

  function EncodeCtrl(c: Ctrl): (r: seq<Byte>)
    requires CtrlFits(c)
    ensures |r| == CTRL_SIZE
  {
    Bytes(CtrlWords(c))
  }

  /** Where the control record `c` (0 or 1) is kept, as a word of the header and as a byte. */
  function CtrlWord(c: nat): nat {
    if c == 0 then W_CTRL else W_CTRL + 4
  }

  function CtrlOffset(c: nat): nat {
    if c == 0 then AT_CTRL else AT_CTRL + CTRL_SIZE
  }

  function HeaderOf(img: Image): (h: seq<nat>)
    requires |img| >= HEADER_SIZE
    ensures |h| == 14 && AllWords(h)
  {
    Words(img[..HEADER_SIZE])
  }

  function CtrlIn(h: seq<nat>, c: nat): Ctrl
    requires |h| == 14
  {
    if c == 0 then Ctrl(h[5], h[6], h[7], h[8]) else Ctrl(h[9], h[10], h[11], h[12])
  }

  // ----- what log_stream_init finds -----

  /** The number of records a device has room for. */
  function Capacity(size: nat, elemSize: nat): (max: nat)
    requires elemSize > 0
    ensures max <= size
  {
    if size < HEADER_SIZE + elemSize then 0 else 1 + Capacity(size - elemSize, elemSize)
  }

  /** It is the quotient that `log_stream_init` computes. */
  lemma {:induction false} CapacityIs(size: nat, elemSize: nat)
    requires elemSize > 0
    ensures Capacity(size, elemSize) == if size > HEADER_SIZE then (size - HEADER_SIZE) / elemSize else 0
  {
    if size >= HEADER_SIZE + elemSize {
      CapacityIs(size - elemSize, elemSize);
      DivStep(size - HEADER_SIZE, elemSize);
      if size == HEADER_SIZE + elemSize {
        DivModUnique(0, elemSize, 0, 0);
      }
    } else if size > HEADER_SIZE {
      DivModUnique(size - HEADER_SIZE, elemSize, 0, size - HEADER_SIZE);
    }
  }

  /** The header of a log of `max` records of `elemSize` bytes. */
  predicate Matches(h: seq<nat>, elemSize: nat, max: nat)
    requires |h| == 14
  {
    h[W_MAGIC1] == MAGIC1 && h[W_MAGIC2] == MAGIC2 && h[W_MAX] == max && h[W_ELEM_SIZE] == elemSize
  }

  predicate Recognised(img: Image, elemSize: nat) {
    elemSize > 0 && |img| > HEADER_SIZE && Matches(HeaderOf(img), elemSize, Capacity(|img|, elemSize))
  }

  /** The copy of the control record that is in force, and what it says. */
  datatype Active = Active(c: nat, ctrl: Ctrl)

  /** What a device with a log says: its header is a log's and points at one of the two copies. */
  function ActiveIn(img: Image, elemSize: nat): Option<Active> {
    if Recognised(img, elemSize) && HeaderOf(img)[W_C_HDR] < 2
    then Some(Active(HeaderOf(img)[W_C_HDR], CtrlIn(HeaderOf(img), HeaderOf(img)[W_C_HDR])))
    else None
  }

  // ----- the header after a write -----

  lemma FieldElsewhere(img: Image, off: nat, bytes: seq<Byte>, k: nat)
    requires |img| >= HEADER_SIZE && off + |bytes| <= |img| && k < 14
    requires 4 * k + 4 <= off || off + |bytes| <= 4 * k
    ensures HeaderOf(Splice(img, off, bytes))[k] == HeaderOf(img)[k]
  {
    var r, a := Splice(img, off, bytes), 4 * k;
    SpliceElsewhere(img, off, bytes, a, a + 4);
    PrefixSlice(img, HEADER_SIZE, a, a + 4);
    PrefixSlice(r, HEADER_SIZE, a, a + 4);
    SameWord(img[..HEADER_SIZE], k, r[..HEADER_SIZE], k);
  }

  /** Whole words written to the header replace those words of it. */
  lemma HeaderReplaced(img: Image, at: nat, ws: seq<nat>, bytes: seq<Byte>, n: nat)
    requires |img| >= HEADER_SIZE && |bytes| == 4 * n && at + n <= 14 && ws == Words(bytes)
    ensures HeaderOf(Splice(img, 4 * at, bytes)) == HeaderOf(img)[..at] + ws + HeaderOf(img)[at + n..]
  {
    var off, to := 4 * at, 4 * at + |bytes|;
    SplicePrefix(img, off, bytes, HEADER_SIZE);
    WordsReplaced(img[..off], bytes, img[off..to], img[to..HEADER_SIZE], at, n);
  }

  lemma HeaderWritten(img: Image, at: nat, ws: seq<nat>, bytes: seq<Byte>)
    requires |img| >= HEADER_SIZE && AllWords(ws) && at + |ws| <= 14 && bytes == Bytes(ws)
    ensures HeaderOf(Splice(img, 4 * at, bytes)) == HeaderOf(img)[..at] + ws + HeaderOf(img)[at + |ws|..]
  {
    WordsBytes(ws);
    HeaderReplaced(img, at, ws, bytes, |ws|);
  }

  /** Bytes written within the words from `at` up to `to` touch no other word. */
  lemma HeaderTouched(img: Image, off: nat, bytes: seq<Byte>, at: nat, to: nat)
    requires |img| >= HEADER_SIZE && 4 * at <= off && off + |bytes| <= 4 * to && to <= 14 && off + |bytes| <= |img|
    ensures forall k | 0 <= k < 14 && !(at <= k < to) :: HeaderOf(Splice(img, off, bytes))[k] == HeaderOf(img)[k]
  {
    forall k | 0 <= k < 14 && !(at <= k < to) ensures HeaderOf(Splice(img, off, bytes))[k] == HeaderOf(img)[k] {
      FieldElsewhere(img, off, bytes, k);
    }
  }

  // ----- stopping between two bytes -----

  datatype Write = Write(off: nat, bytes: seq<Byte>)

  predicate AllFit(size: nat, ws: seq<Write>) {
    forall i | 0 <= i < |ws| :: ws[i].off + |ws[i].bytes| <= size
  }

  /** The image after the first `k` bytes of the writes `ws`, in order; large `k` means all of them. */
  function Crash(img: Image, ws: seq<Write>, k: nat): (r: Image)
    requires AllFit(|img|, ws)
    ensures |r| == |img|
    decreases |ws|
  {
    if ws == [] then img
    else if k < |ws[0].bytes| then Splice(img, ws[0].off, ws[0].bytes[..k])
    else Crash(Splice(img, ws[0].off, ws[0].bytes), ws[1..], k - |ws[0].bytes|)
  }

  function Take(bytes: seq<Byte>, k: int): (r: seq<Byte>)
    ensures |r| <= |bytes|
  {
    if k <= 0 then [] else if k < |bytes| then bytes[..k] else bytes
  }

  lemma CrashInFirst(img: Image, w1: Write, w2: Write, k: nat)
    requires AllFit(|img|, [w1, w2]) && k < |w1.bytes|
    ensures w1.off + k <= |img| && Crash(img, [w1, w2], k) == Splice(img, w1.off, w1.bytes[..k])
  {
    assert [w1, w2][0] == w1;
  }

  lemma CrashInSecond(img: Image, w1: Write, w2: Write, k: nat)
    requires w1.off + |w1.bytes| <= |img| && w2.off + |w2.bytes| <= |img| && k >= |w1.bytes|
    ensures Crash(img, [w1, w2], k) == Splice(Splice(img, w1.off, w1.bytes), w2.off, Take(w2.bytes, k - |w1.bytes|))
  {
    var ws := [w1, w2];
    assert ws[1..] == [w2] && ws[0] == w1 && ws[1] == w2;
    var a, j := Splice(img, w1.off, w1.bytes), k - |w1.bytes|;
    assert w2.bytes[..0] == [];
    assert [w2][1..] == [];
    assert Crash(a, [w2], j) == if j < |w2.bytes| then Splice(a, w2.off, w2.bytes[..j]) else Splice(a, w2.off, w2.bytes);
  }

  /** The two writes of a commit: the new control record, then which of the two copies it is. */
  function CommitWrites(c: nat, ctrl: Ctrl): seq<Write>
    requires c < 2 && CtrlFits(ctrl)
  {
    [Write(CtrlOffset(c), EncodeCtrl(ctrl)), Write(AT_C_HDR, Encode(c))]
  }

  /** The header of `r` puts copy `c` in force, which says `ctrl`, and behind the header `r` is `img`. */
  predicate LogWith(r: Image, img: Image, elemSize: nat, c: nat, ctrl: Ctrl) {
    |r| == |img| > HEADER_SIZE && ActiveIn(r, elemSize) == Some(Active(c, ctrl)) && r[HEADER_SIZE..] == img[HEADER_SIZE..]
  }

  lemma PartialRecord(img: Image, elemSize: nat, c: nat, ctrl: Ctrl, bytes: seq<Byte>)
    requires c < 2 && ActiveIn(img, elemSize) == Some(Active(1 - c, ctrl)) && |bytes| <= CTRL_SIZE
    ensures LogWith(Splice(img, CtrlOffset(c), bytes), img, elemSize, 1 - c, ctrl)
  {
    HeaderTouched(img, CtrlOffset(c), bytes, CtrlWord(c), CtrlWord(c) + 4);
  }

  /** The record that a commit writes is what copy `c` then says. */
  lemma RecordWritten(img: Image, c: nat, ctrl: Ctrl)
    requires |img| >= HEADER_SIZE && c < 2 && CtrlFits(ctrl)
    ensures CtrlIn(HeaderOf(Splice(img, CtrlOffset(c), EncodeCtrl(ctrl))), c) == ctrl
  {
    HeaderWritten(img, CtrlWord(c), CtrlWords(ctrl), EncodeCtrl(ctrl));
  }

  /** A small word is its first byte, followed by zeros. */
  lemma SmallWord(b: seq<Byte>)
    requires |b| == 4 && Decode(b) < 2
    ensures b == Encode(Decode(b))
  {
  }

  /** Overwriting one small word by another takes effect with its first byte. */
  lemma SmallWordSplice(img: Image, at: nat, c: nat, j: nat)
    requires |img| >= HEADER_SIZE && at < 14 && HeaderOf(img)[at] < 2 && c < 2 && 0 < j <= 4
    ensures HeaderOf(Splice(img, 4 * at, Encode(c)[..j])) == HeaderOf(img)[at := c]
  {
    WordIs(img[..HEADER_SIZE], at);
    SmallBytes(img, 4 * at, img[..HEADER_SIZE][4 * at..4 * at + 4], c, j);
    assert Bytes([c]) == Encode(c) by {
      assert [c][1..] == [];
    }
    HeaderWritten(img, at, [c], Encode(c));
    UpdateIs(HeaderOf(img), at, c);
  }

  lemma UpdateIs<T>(h: seq<T>, at: nat, x: T)
    requires at < |h|
    ensures h[..at] + [x] + h[at + 1..] == h[at := x]
  {
  }

  lemma SmallBytes(img: Image, off: nat, b: seq<Byte>, c: nat, j: nat)
    requires off + 4 <= |img| && b == img[off..off + 4] && Decode(b) < 2 && c < 2 && 0 < j <= 4
    ensures Splice(img, off, Encode(c)[..j]) == Splice(img, off, Encode(c))
  {
    SmallWord(b);
    assert b[1] == b[2] == b[3] == 0;
  }

  lemma PointerWritten(a: Image, elemSize: nat, c: nat, found: Active, ctrl: Ctrl, j: nat)
    requires c < 2 && ActiveIn(a, elemSize) == Some(found) && CtrlIn(HeaderOf(a), c) == ctrl
    ensures LogWith(Splice(a, AT_C_HDR, Take(Encode(c), j)), a, elemSize,
                    if j == 0 then found.c else c, if j == 0 then found.ctrl else ctrl)
  {
    if j == 0 {
      assert Splice(a, AT_C_HDR, []) == a;
    } else {
      assert Encode(c)[..4] == Encode(c);
      SmallWordSplice(a, W_C_HDR, c, if j < 4 then j else 4);
    }
  }

  lemma RecordThenPointer(img: Image, elemSize: nat, c: nat, was: Ctrl, ctrl: Ctrl, j: nat)
    requires c < 2 && ActiveIn(img, elemSize) == Some(Active(1 - c, was)) && CtrlFits(ctrl)
    ensures LogWith(Splice(Splice(img, CtrlOffset(c), EncodeCtrl(ctrl)), AT_C_HDR, Take(Encode(c), j)), img, elemSize,
                    if j == 0 then 1 - c else c, if j == 0 then was else ctrl)
  {
    PartialRecord(img, elemSize, c, was, EncodeCtrl(ctrl));
    RecordWritten(img, c, ctrl);
    PointerWritten(Splice(img, CtrlOffset(c), EncodeCtrl(ctrl)), elemSize, c, Active(1 - c, was), ctrl, j);
  }

  /** While the copy being written is not the one in force, a commit may stop after any byte: up to
      the last byte of the record the old control record is found, from the first byte of the
      pointer on the new one. */
  lemma CommitCrash(img: Image, elemSize: nat, c: nat, was: Ctrl, ctrl: Ctrl, k: nat)
    requires c < 2 && ActiveIn(img, elemSize) == Some(Active(1 - c, was)) && CtrlFits(ctrl)
    ensures LogWith(Crash(img, CommitWrites(c, ctrl), k), img, elemSize,
                    if k <= CTRL_SIZE then 1 - c else c, if k <= CTRL_SIZE then was else ctrl)
  {
    var bytes := EncodeCtrl(ctrl);
    if k < CTRL_SIZE {
      CrashInFirst(img, Write(CtrlOffset(c), bytes), Write(AT_C_HDR, Encode(c)), k);
      PartialRecord(img, elemSize, c, was, bytes[..k]);
    } else {
      CrashInSecond(img, Write(CtrlOffset(c), bytes), Write(AT_C_HDR, Encode(c)), k);
      RecordThenPointer(img, elemSize, c, was, ctrl, k - CTRL_SIZE);
    }
  }

  lemma ActiveOverwritten(img: Image, elemSize: nat, ctrl: Ctrl)
    requires ActiveIn(img, elemSize).Some? && ActiveIn(img, elemSize).value.c == 0 && CtrlFits(ctrl)
    ensures LogWith(Splice(img, AT_CTRL, EncodeCtrl(ctrl)), img, elemSize, 0, ctrl)
  {
    HeaderWritten(img, W_CTRL, CtrlWords(ctrl), EncodeCtrl(ctrl));
  }

  lemma ActiveThenPointer(img: Image, elemSize: nat, ctrl: Ctrl, j: nat)
    requires ActiveIn(img, elemSize).Some? && ActiveIn(img, elemSize).value.c == 0 && CtrlFits(ctrl)
    ensures LogWith(Splice(Splice(img, AT_CTRL, EncodeCtrl(ctrl)), AT_C_HDR, Take(Encode(0), j)), img, elemSize, 0, ctrl)
  {
    ActiveOverwritten(img, elemSize, ctrl);
    RecordWritten(img, 0, ctrl);
    PointerWritten(Splice(img, AT_CTRL, EncodeCtrl(ctrl)), elemSize, 0, Active(0, ctrl), ctrl, j);
  }

  /** The first commit after a fresh header writes the copy in force.  Stopping between its two
      writes is still safe: the new control record is found. */
  lemma FirstCommitCrash(img: Image, elemSize: nat, was: Ctrl, ctrl: Ctrl, k: nat)
    requires ActiveIn(img, elemSize) == Some(Active(0, was)) && CtrlFits(ctrl)
    requires k == 0 || k >= CTRL_SIZE
    ensures LogWith(Crash(img, CommitWrites(0, ctrl), k), img, elemSize, 0, if k == 0 then was else ctrl)
  {
    var bytes := EncodeCtrl(ctrl);
    if k == 0 {
      CrashInFirst(img, Write(AT_CTRL, bytes), Write(AT_C_HDR, Encode(0)), k);
      assert Splice(img, AT_CTRL, bytes[..0]) == img;
    } else {
      CrashInSecond(img, Write(AT_CTRL, bytes), Write(AT_C_HDR, Encode(0)), k);
      ActiveThenPointer(img, elemSize, ctrl, k - CTRL_SIZE);
    }
  }

  /** The record in copy 0, byte for byte. */
  lemma CtrlBytes(img: Image)
    requires |img| >= HEADER_SIZE
    ensures var c := CtrlIn(HeaderOf(img), 0); CtrlFits(c) && img[AT_CTRL..AT_CTRL + CTRL_SIZE] == EncodeCtrl(c)
  {
    var a, b, d := img[..AT_CTRL], img[AT_CTRL..AT_CTRL + CTRL_SIZE], img[AT_CTRL + CTRL_SIZE..HEADER_SIZE];
    assert img[..HEADER_SIZE] == a + b + d;
    WordsOfThree(a, b, d);
    BytesWords(b);
    assert Words(b) == CtrlWords(CtrlIn(HeaderOf(img), 0));
  }

  lemma EncodeCtrlInjective(a: Ctrl, b: Ctrl)
    requires CtrlFits(a) && CtrlFits(b) && EncodeCtrl(a) == EncodeCtrl(b)
    ensures a == b
  {
    WordsBytes(CtrlWords(a));
    WordsBytes(CtrlWords(b));
    assert CtrlWords(a)[0] == a.tail && CtrlWords(a)[1] == a.elem && CtrlWords(a)[2] == a.head && CtrlWords(a)[3] == a.d;
  }

  /** Stopping inside the first write is safe if and only if the bytes written so far, or those still
      to be written, are the same in both records. */
  lemma FirstCommitExact(img: Image, elemSize: nat, was: Ctrl, ctrl: Ctrl, k: nat)
    requires ActiveIn(img, elemSize) == Some(Active(0, was)) && CtrlFits(ctrl) && k < CTRL_SIZE
    ensures CtrlFits(was)
    ensures var found := ActiveIn(Crash(img, CommitWrites(0, ctrl), k), elemSize);
            && found.Some?
            && (found.value.ctrl == was || found.value.ctrl == ctrl
                <==> EncodeCtrl(ctrl)[..k] == EncodeCtrl(was)[..k] || EncodeCtrl(ctrl)[k..] == EncodeCtrl(was)[k..])
  {
    var bytes := EncodeCtrl(ctrl);
    CrashInFirst(img, Write(AT_CTRL, bytes), Write(AT_C_HDR, Encode(0)), k);
    var r := Splice(img, AT_CTRL, bytes[..k]);
    HeaderTouched(img, AT_CTRL, bytes[..k], W_CTRL, W_CTRL + 4);
    CtrlBytes(img);
    CtrlBytes(r);
    var mixed := CtrlIn(HeaderOf(r), 0);
    assert EncodeCtrl(mixed) == bytes[..k] + EncodeCtrl(was)[k..];
    MixedIsEither(bytes, EncodeCtrl(was), k);
    if EncodeCtrl(mixed) == EncodeCtrl(was) {
      EncodeCtrlInjective(mixed, was);
    }
    if EncodeCtrl(mixed) == bytes {
      EncodeCtrlInjective(mixed, ctrl);
    }
  }

  lemma MixedIsEither(a: seq<Byte>, b: seq<Byte>, k: nat)
    requires |a| == |b| >= k
    ensures a[..k] + b[k..] == b <==> a[..k] == b[..k]
    ensures a[..k] + b[k..] == a <==> a[k..] == b[k..]
  {
    var m := a[..k] + b[k..];
    assert m[..k] == a[..k] && m[k..] == b[k..];
    assert a == a[..k] + a[k..] && b == b[..k] + b[k..];
  }

  /** So it may go wrong: one byte into the first insertion's commit, the
      control record found is neither the old nor the new one. */
  lemma FirstCommitTears(img: Image, elemSize: nat)
    requires ActiveIn(img, elemSize) == Some(Active(0, EMPTY))
    ensures ActiveIn(Crash(img, CommitWrites(0, Ctrl(1, 1, 0, 0)), 1), elemSize) == Some(Active(0, Ctrl(1, 0, 0, 0)))
  {
    var written := Ctrl(1, 1, 0, 0);
    var bytes := EncodeCtrl(written)[..1];
    CrashInFirst(img, Write(AT_CTRL, EncodeCtrl(written)), Write(AT_C_HDR, Encode(0)), 1);
    assert bytes == Encode(1)[..1];
    SmallWordSplice(img, W_CTRL, 1, 1);
  }
}
