/** The memory block driver (core/drivers/memblock.c): a seekable byte device of fixed size, whose
    reads, writes and seeks are cut at the end of the block. */
module MemBlocks {
  import opened LogImages

  const DEV_SEEK_CURRENT: nat := 0
  const DEV_SEEK_START: nat := 1
  const DEV_SEEK_END: nat := 2

  /** A 32-bit word read as a signed number; sums wrap around. */
  function Signed(x: int): (r: int)
    ensures -0x8000_0000 <= r < 0x8000_0000
    ensures -0x8000_0000 <= x < 0x8000_0000 ==> r == x
  {
    var w := x % WORD;
    if w < 0x8000_0000 then w else w - WORD
  }

  /** The position a seek asks for, before it is cut to the block. */
  function Asked(offset: nat, whence: nat, pos: nat, size: nat): int {
    if whence == DEV_SEEK_CURRENT then Signed(Signed(offset) + pos)
    else if whence == DEV_SEEK_END then Signed(Signed(offset) + size)
    else Signed(offset)
  }

  /** The image once all of the writes `ws` are done. */
  function Played(img: Image, ws: seq<Write>): (r: Image)
    requires AllFit(|img|, ws)
    ensures |r| == |img|
    decreases |ws|
  {
    if ws == [] then img
    else
      var last := ws[|ws| - 1];
      Splice(Played(img, ws[..|ws| - 1]), last.off, last.bytes)
  }

  lemma PlayedMore(img: Image, ws: seq<Write>, w: Write)
    requires AllFit(|img|, ws) && w.off + |w.bytes| <= |img|
    ensures AllFit(|img|, ws + [w]) && Played(img, ws + [w]) == Splice(Played(img, ws), w.off, w.bytes)
  {
    assert (ws + [w])[..|ws|] == ws;
  }

  function Total(ws: seq<Write>): nat {
    if ws == [] then 0 else |ws[0].bytes| + Total(ws[1..])
  }

  /** Playing writes in two parts. */
  lemma {:induction false} PlayedTwice(img: Image, ws: seq<Write>, more: seq<Write>)
    requires AllFit(|img|, ws) && AllFit(|img|, more)
    ensures AllFit(|img|, ws + more) && Played(img, ws + more) == Played(Played(img, ws), more)
    decreases |more|
  {
    if more == [] {
      assert ws + more == ws;
    } else {
      var n := |more| - 1;
      PlayedTwice(img, ws, more[..n]);
      assert ws + more == (ws + more[..n]) + [more[n]] && more == more[..n] + [more[n]];
      PlayedMore(img, ws + more[..n], more[n]);
      PlayedMore(Played(img, ws), more[..n], more[n]);
    }
  }

  /** Not stopping at all, or stopping after the last byte, leaves the image of all of the writes. */
  lemma {:induction false} CrashNever(img: Image, ws: seq<Write>, k: nat)
    requires AllFit(|img|, ws) && k >= Total(ws)
    ensures Crash(img, ws, k) == Played(img, ws)
    decreases |ws|
  {
    if ws != [] {
      var w := ws[0];
      CrashNever(Splice(img, w.off, w.bytes), ws[1..], k - |w.bytes|);
      assert ws == [w] + ws[1..] && [w] == [] + [w];
      PlayedMore(img, [], w);
      PlayedTwice(img, [w], ws[1..]);
    }
  }

  class MemBlock {
    const mem: array<Byte>
    var pos: nat
    /** What the block held at first, and every write that has reached it since. */
    ghost const start: Image
    ghost var history: seq<Write>

    ghost predicate Valid()
      reads this, mem
    {
      && pos <= mem.Length < 0x8000_0000
      && |start| == mem.Length && AllFit(|start|, history) && mem[..] == Played(start, history)
    }

    constructor (mem: array<Byte>)
      requires mem.Length < 0x8000_0000
      ensures Valid() && this.mem == mem && pos == 0 && start == mem[..] && history == []
    {
      this.mem := mem;
      pos := 0;
      start := mem[..];
      history := [];
    }

    method Reset()
      requires Valid()
      modifies this`pos
      ensures Valid() && pos == 0
    {
      pos := 0;
    }

    /** How much of a transfer of `len` bytes is done. */
    function Allowed(len: int): (n: nat)
      requires pos <= mem.Length
      reads this
      ensures pos + n <= mem.Length && (0 <= len && pos + len <= mem.Length ==> n == len)
    {
      var cut := if mem.Length - pos - len < 0 then mem.Length - pos else len;
      if cut <= 0 then 0 else cut
    }

    method Read(len: int) returns (bytes: seq<Byte>)
      requires Valid()
      modifies this`pos
      ensures Valid() && pos == old(pos) + old(Allowed(len))
      ensures bytes == mem[old(pos)..pos]
    {
      var n := Allowed(len);
      bytes := [];
      var e := 0;
      while e < n
        invariant 0 <= e <= n
        invariant bytes == mem[pos..pos + e]
      {
        bytes := bytes + [mem[pos + e]];
        e := e + 1;
      }
      pos := pos + n;
    }

    method Write(bytes: seq<Byte>) returns (n: nat)
      requires Valid()
      modifies this`pos, this`history, mem
      ensures Valid() && n == old(Allowed(|bytes|)) <= |bytes| && pos == old(pos) + n
      ensures mem[..] == Splice(old(mem[..]), old(pos), bytes[..n])
      ensures history == old(history) + [LogImages.Write(old(pos), bytes[..n])]
    {
      n := Allowed(|bytes|);
      forall i | 0 <= i < n {
        mem[pos + i] := bytes[i];
      }
      assert mem[..] == Splice(old(mem[..]), pos, bytes[..n]);
      PlayedMore(start, history, LogImages.Write(pos, bytes[..n]));
      history := history + [LogImages.Write(pos, bytes[..n])];
      pos := pos + n;
    }

    method Seek(offset: nat, whence: nat) returns (off: nat)
      requires Valid() && offset < WORD
      modifies this`pos
      ensures Valid() && off == pos
      ensures var asked := Asked(offset, whence, old(pos), mem.Length);
              (asked < 0 ==> off == 0) && (asked > mem.Length ==> off == mem.Length) && (0 <= asked <= mem.Length ==> off == asked)
    {
      var o: int := Signed(offset);
      if whence == DEV_SEEK_CURRENT {
        o := Signed(o + pos);
      } else if whence == DEV_SEEK_END {
        o := Signed(o + mem.Length);
      }
      if o < 0 {
        o := 0;
      }
      if o > mem.Length {
        o := mem.Length;
      }
      pos := o;
      off := o;
    }
  }
}
