/** `unalign_memcpy` (core/include/stdc.h): a byte copy through 32-bit word accesses. */
module WordCopy {
  import opened Arithmetic

  type Byte = bv8

  // ----- words and their bytes -----

  /** The position, counted in bytes from the least significant end, of the byte at address offset `c`. */
  function Lane(little: bool, c: nat): nat
    requires c < 4
    ensures Lane(little, c) < 4
  {
    if little then c else 3 - c
  }

  function ByteIn(w: bv32, lane: nat): Byte
    requires lane < 4
  {
    if lane == 0 then (w & 0xff) as bv8
    else if lane == 1 then ((w >> 8) & 0xff) as bv8
    else if lane == 2 then ((w >> 16) & 0xff) as bv8
    else ((w >> 24) & 0xff) as bv8
  }

  function Pack(b0: Byte, b1: Byte, b2: Byte, b3: Byte): bv32 {
    (b0 as bv32) | ((b1 as bv32) << 8) | ((b2 as bv32) << 16) | ((b3 as bv32) << 24)
  }

  lemma ByteInPack(b0: Byte, b1: Byte, b2: Byte, b3: Byte)
    ensures var w := Pack(b0, b1, b2, b3);
            ByteIn(w, 0) == b0 && ByteIn(w, 1) == b1 && ByteIn(w, 2) == b2 && ByteIn(w, 3) == b3
  {
  }

  /** The source byte at address offset `c`, moved to the first byte of the word. */
  function TakeLow(s: bv32, c: nat): bv32
    requires c < 4
  {
    if c == 0 then (s & (0xff << 0)) >> 0
    else if c == 1 then (s & (0xff << 8)) >> 8
    else if c == 2 then (s & (0xff << 16)) >> 16
    else (s & (0xff << 24)) >> 24
  }

  function TakeHigh(s: bv32, c: nat): bv32
    requires c < 4
  {
    if c == 0 then (s & (0xff000000 >> 0)) << 0
    else if c == 1 then (s & (0xff000000 >> 8)) << 8
    else if c == 2 then (s & (0xff000000 >> 16)) << 16
    else (s & (0xff000000 >> 24)) << 24
  }

  /** That byte `x`, moved to address offset `c` and merged into the destination word. */
  function PlaceLow(x: bv32, d: bv32, c: nat): bv32
    requires c < 4
  {
    if c == 0 then (x << 0) | (d & !(0xff << 0))
    else if c == 1 then (x << 8) | (d & !(0xff << 8))
    else if c == 2 then (x << 16) | (d & !(0xff << 16))
    else (x << 24) | (d & !(0xff << 24))
  }

  function PlaceHigh(x: bv32, d: bv32, c: nat): bv32
    requires c < 4
  {
    if c == 0 then (x >> 0) | (d & !(0xff000000 >> 0))
    else if c == 1 then (x >> 8) | (d & !(0xff000000 >> 8))
    else if c == 2 then (x >> 16) | (d & !(0xff000000 >> 16))
    else (x >> 24) | (d & !(0xff000000 >> 24))
  }

  /** The word arithmetic of one iteration: byte `c1` of `s` in place of byte `c2` of `d`. */
  function Merge(little: bool, s: bv32, d: bv32, c1: nat, c2: nat): bv32
    requires c1 < 4 && c2 < 4
  {
    if little then PlaceLow(TakeLow(s, c1), d, c2) else PlaceHigh(TakeHigh(s, c1), d, c2)
  }

  lemma TakesByte(s: bv32, c: nat)
    requires c < 4
    ensures TakeLow(s, c) == ByteIn(s, c) as bv32
    ensures TakeHigh(s, c) == (ByteIn(s, 3 - c) as bv32) << 24
  {
    if c == 0 {} else if c == 1 {} else if c == 2 {} else {}
  }

  lemma PlacesLow0(b: Byte, d: bv32)
    ensures var w := PlaceLow(b as bv32, d, 0);
            && w == ((b as bv32) << 0) | (d & 0xffffff00)
            && ByteIn(w, 0) == b && ByteIn(w, 1) == ByteIn(d, 1) && ByteIn(w, 2) == ByteIn(d, 2) && ByteIn(w, 3) == ByteIn(d, 3)
  {
  }

  lemma PlacesLow1(b: Byte, d: bv32)
    ensures var w := PlaceLow(b as bv32, d, 1);
            && w == ((b as bv32) << 8) | (d & 0xffff00ff)
            && ByteIn(w, 0) == ByteIn(d, 0) && ByteIn(w, 1) == b && ByteIn(w, 2) == ByteIn(d, 2) && ByteIn(w, 3) == ByteIn(d, 3)
  {
  }

  lemma PlacesLow2(b: Byte, d: bv32)
    ensures var w := PlaceLow(b as bv32, d, 2);
            && w == ((b as bv32) << 16) | (d & 0xff00ffff)
            && ByteIn(w, 0) == ByteIn(d, 0) && ByteIn(w, 1) == ByteIn(d, 1) && ByteIn(w, 2) == b && ByteIn(w, 3) == ByteIn(d, 3)
  {
  }

  lemma PlacesLow3(b: Byte, d: bv32)
    ensures var w := PlaceLow(b as bv32, d, 3);
            && w == ((b as bv32) << 24) | (d & 0x00ffffff)
            && ByteIn(w, 0) == ByteIn(d, 0) && ByteIn(w, 1) == ByteIn(d, 1) && ByteIn(w, 2) == ByteIn(d, 2) && ByteIn(w, 3) == b
  {
  }

  lemma PlacesLow(b: Byte, d: bv32, c: nat, lane: nat)
    requires c < 4 && lane < 4
    ensures ByteIn(PlaceLow(b as bv32, d, c), lane) == if lane == c then b else ByteIn(d, lane)
  {
    if c == 0 {
      PlacesLow0(b, d);
    } else if c == 1 {
      PlacesLow1(b, d);
    } else if c == 2 {
      PlacesLow2(b, d);
    } else {
      PlacesLow3(b, d);
    }
  }

  lemma PlacesHigh0(b: Byte, d: bv32)
    ensures var w := PlaceHigh((b as bv32) << 24, d, 0);
            && w == ((b as bv32) << 24) | (d & 0x00ffffff)
            && ByteIn(w, 0) == ByteIn(d, 0) && ByteIn(w, 1) == ByteIn(d, 1) && ByteIn(w, 2) == ByteIn(d, 2) && ByteIn(w, 3) == b
  {
  }

  lemma PlacesHigh1(b: Byte, d: bv32)
    ensures var w := PlaceHigh((b as bv32) << 24, d, 1);
            && w == ((b as bv32) << 16) | (d & 0xff00ffff)
            && ByteIn(w, 0) == ByteIn(d, 0) && ByteIn(w, 1) == ByteIn(d, 1) && ByteIn(w, 2) == b && ByteIn(w, 3) == ByteIn(d, 3)
  {
  }

  lemma PlacesHigh2(b: Byte, d: bv32)
    ensures var w := PlaceHigh((b as bv32) << 24, d, 2);
            && w == ((b as bv32) << 8) | (d & 0xffff00ff)
            && ByteIn(w, 0) == ByteIn(d, 0) && ByteIn(w, 1) == b && ByteIn(w, 2) == ByteIn(d, 2) && ByteIn(w, 3) == ByteIn(d, 3)
  {
  }

  lemma PlacesHigh3(b: Byte, d: bv32)
    ensures var w := PlaceHigh((b as bv32) << 24, d, 3);
            && w == ((b as bv32) << 0) | (d & 0xffffff00)
            && ByteIn(w, 0) == b && ByteIn(w, 1) == ByteIn(d, 1) && ByteIn(w, 2) == ByteIn(d, 2) && ByteIn(w, 3) == ByteIn(d, 3)
  {
  }

  lemma PlacesHigh(b: Byte, d: bv32, c: nat, lane: nat)
    requires c < 4 && lane < 4
    ensures ByteIn(PlaceHigh((b as bv32) << 24, d, c), lane) == if lane == 3 - c then b else ByteIn(d, lane)
  {
    if c == 0 {
      PlacesHigh0(b, d);
    } else if c == 1 {
      PlacesHigh1(b, d);
    } else if c == 2 {
      PlacesHigh2(b, d);
    } else {
      PlacesHigh3(b, d);
    }
  }

  /** One byte of the destination word becomes the source byte; the other three stay. */
  lemma MergeBytes(little: bool, s: bv32, d: bv32, c1: nat, c2: nat, c: nat)
    requires c1 < 4 && c2 < 4 && c < 4
    ensures ByteIn(Merge(little, s, d, c1, c2), Lane(little, c))
         == if c == c2 then ByteIn(s, Lane(little, c1)) else ByteIn(d, Lane(little, c))
  {
    TakesByte(s, c1);
    if little {
      PlacesLow(ByteIn(s, c1), d, c2, c);
    } else {
      PlacesHigh(ByteIn(s, 3 - c1), d, c2, 3 - c);
    }
  }

  // ----- memory -----

  /** The word at the aligned address `a`. */
  function Word(m: seq<Byte>, little: bool, a: nat): bv32
    requires a + 4 <= |m|
  {
    if little then Pack(m[a], m[a + 1], m[a + 2], m[a + 3]) else Pack(m[a + 3], m[a + 2], m[a + 1], m[a])
  }

  lemma WordBytes(m: seq<Byte>, little: bool, a: nat, c: nat)
    requires a + 4 <= |m| && c < 4
    ensures ByteIn(Word(m, little, a), Lane(little, c)) == m[a + c]
  {
    if little {
      ByteInPack(m[a], m[a + 1], m[a + 2], m[a + 3]);
    } else {
      ByteInPack(m[a + 3], m[a + 2], m[a + 1], m[a]);
    }
  }

  /** The write callback: stores a word at an aligned address. */
  method WriteWord(mem: array<Byte>, little: bool, a: nat, w: bv32)
    requires a + 4 <= mem.Length
    modifies mem
    ensures forall i | 0 <= i < mem.Length ::
              mem[i] == if a <= i < a + 4 then ByteIn(w, Lane(little, i - a)) else old(mem[i])
  {
    mem[a] := ByteIn(w, Lane(little, 0));
    mem[a + 1] := ByteIn(w, Lane(little, 1));
    mem[a + 2] := ByteIn(w, Lane(little, 2));
    mem[a + 3] := ByteIn(w, Lane(little, 3));
  }

  // ----- the copy -----

  /** What copying `n` bytes one by one, in ascending order, leaves in memory. */
  function ForwardCopy(m: seq<Byte>, dst: nat, src: nat, n: nat): (r: seq<Byte>)
    requires dst + n <= |m| && src + n <= |m|
    ensures |r| == |m|
  {
    if n == 0 then m
    else
      var r := ForwardCopy(m, dst, src, n - 1);
      r[dst + n - 1 := r[src + n - 1]]
  }

  /** Reads both words and merges them: the result is the destination word with one byte replaced. */
  method MergedWord(mem: array<Byte>, little: bool, dst: nat, src: nat, c1: nat, c2: nat) returns (w: bv32)
    requires mem.Length % 4 == 0 && dst < mem.Length && src < mem.Length
    requires c1 == src % 4 && c2 == dst % 4
    ensures dst - c2 + 4 <= mem.Length
    ensures forall c: nat | c < 4 :: ByteIn(w, Lane(little, c)) == if c == c2 then mem[src] else mem[dst - c2 + c]
  {
    var s := Word(mem[..], little, src - c1);
    var d := Word(mem[..], little, dst - c2);
    w := Merge(little, s, d, c1, c2);
    forall c: nat | c < 4 ensures ByteIn(w, Lane(little, c)) == if c == c2 then mem[src] else mem[dst - c2 + c] {
      MergeBytes(little, s, d, c1, c2, c);
      WordBytes(mem[..], little, src - c1, c1);
      WordBytes(mem[..], little, dst - c2, c);
    }
  }

  /** One iteration of the copy. */
  method CopyByte(mem: array<Byte>, little: bool, dst: nat, src: nat, c1: nat, c2: nat)
    requires mem.Length % 4 == 0 && dst < mem.Length && src < mem.Length
    requires c1 == src % 4 && c2 == dst % 4
    modifies mem
    ensures mem[..] == old(mem[..])[dst := old(mem[src])]
  {
    var w := MergedWord(mem, little, dst, src, c1, c2);
    WriteWord(mem, little, dst - c2, w);
  }

  /** `unalign_memcpy`: for all alignments, sizes, overlaps and both byte orders, the memory ends up
      as after a copy byte by byte. */
  method UnalignMemcpy(mem: array<Byte>, little: bool, dst: nat, src: nat, size: int)
    requires mem.Length % 4 == 0
    requires size > 0 ==> dst + size <= mem.Length && src + size <= mem.Length
    modifies mem
    ensures mem[..] == if size > 0 then ForwardCopy(old(mem[..]), dst, src, size) else old(mem[..])
  {
    var e, c1, c2 := 0, src % 4, dst % 4;
    var s, d := src, dst;
    while e < size
      invariant 0 <= e && (size > 0 ==> e <= size) && (size <= 0 ==> e == 0)
      invariant s == src + e && d == dst + e && c1 == s % 4 && c2 == d % 4
      invariant mem[..] == if e > 0 then ForwardCopy(old(mem[..]), dst, src, e) else old(mem[..])
    {
      CopyByte(mem, little, d, s, c1, c2);
      NextOffset(c1, s);
      NextOffset(c2, d);
      s, d := s + 1, d + 1;
      c1, c2 := (c1 + 1) % 4, (c2 + 1) % 4;
      e := e + 1;
    }
  }

  lemma NextOffset(c: nat, a: nat)
    requires c == a % 4
    ensures (c + 1) % 4 == (a + 1) % 4
  {
  }

  /** No byte outside the destination changes, and each byte inside is the source byte as it was
      before, except that a destination starting inside the source repeats the bytes between. */
  lemma {:induction false} ForwardCopyBytes(m: seq<Byte>, dst: nat, src: nat, n: nat, k: nat)
    requires dst + n <= |m| && src + n <= |m| && k < |m|
    ensures ForwardCopy(m, dst, src, n)[k]
         == if !(dst <= k < dst + n) then m[k]
            else if src < dst then m[src + (k - dst) % (dst - src)]
            else m[src + (k - dst)]
    decreases n
  {
    if n > 0 {
      if k == dst + n - 1 {
        ForwardCopyBytes(m, dst, src, n - 1, src + n - 1);
        if src < dst {
          Wrap(n - 1, dst - src);
        }
      } else {
        ForwardCopyBytes(m, dst, src, n - 1, k);
      }
    }
  }

  lemma Wrap(i: nat, d: nat)
    requires d > 0
    ensures i % d == if i < d then i else (i - d) % d
  {
    if i >= d {
      var q, r := (i - d) / d, (i - d) % d;
      assert (q + 1) * d == q * d + d;
      DivModUnique(i, d, q + 1, r);
    }
  }
}
