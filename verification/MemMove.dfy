/**
 The memory primitives of safeclib on one flat byte memory.

 `mem` is the memory; a pointer is an index into it, and `base` is the machine address of index 0, so
 that alignment and pointer order are those of the machine. `uint32_t` variables are reduced modulo
 2^32 where the source narrows a pointer into one. The word size is 4.
 */
module MemMove {

  newtype byte = b: int | 0 <= b < 256

  const TWO_32: nat := 0x1_0000_0000
  const RSIZE_MAX_MEM: nat := 0x1000_0000

  datatype Errno = EOK | ESNULLP | ESZEROL | ESLEMAX

  /** What moving through a temporary buffer gives: the source bytes as they were, and nothing else changed. */
  function Moved(mem: seq<byte>, dest: nat, src: nat, len: nat): seq<byte>
    requires dest + len <= |mem| && src + len <= |mem|
  {
    mem[..dest] + mem[src..src + len] + mem[dest + len..]
  }

  function Filled(mem: seq<byte>, dest: nat, len: nat, value: byte): seq<byte>
    requires dest + len <= |mem|
  {
    mem[..dest] + seq(len, _ => value) + mem[dest + len..]
  }

  /** `now` is `mem` with the bytes [lo, hi) of the destination moved and no other byte touched. */
  ghost predicate PartlyMoved(mem: seq<byte>, now: seq<byte>, dest: nat, src: nat, lo: nat, hi: nat) {
    && lo <= hi && dest + hi <= |mem| && src + hi <= |mem| && |now| == |mem|
    && (forall i {:trigger now[i]} :: dest + lo <= i < dest + hi ==> now[i] == mem[i - dest + src])
    && (forall i {:trigger now[i]} :: 0 <= i < |mem| && !(dest + lo <= i < dest + hi) ==> now[i] == mem[i])
  }

  lemma FullyMoved(mem: seq<byte>, now: seq<byte>, dest: nat, src: nat, len: nat)
    requires PartlyMoved(mem, now, dest, src, 0, len)
    ensures now == Moved(mem, dest, src, len)
  {
  }

  /** *dp++ = *sp++, tsp times; tsp is at least 1 as the loop tests at its end. */
  method BytesForward(mem: array<byte>, dp0: nat, sp0: nat, count: nat,
                      ghost was: seq<byte>, ghost dest: nat, ghost src: nat)
    returns (dp: nat, sp: nat)
    requires count > 0 && dest < src && dest <= dp0 && sp0 - dp0 == src - dest
    requires sp0 + count <= mem.Length
    requires PartlyMoved(was, mem[..], dest, src, 0, dp0 - dest)
    modifies mem
    ensures dp == dp0 + count && sp == sp0 + count
    ensures PartlyMoved(was, mem[..], dest, src, 0, dp - dest)
  {
    dp, sp := dp0, sp0;
    var tsp := count;
    while true
      invariant 0 < tsp <= count && dp == dp0 + (count - tsp) && sp == sp0 + (count - tsp)
      invariant PartlyMoved(was, mem[..], dest, src, 0, dp - dest)
      decreases tsp
    {
      mem[dp] := mem[sp];
      dp, sp := dp + 1, sp + 1;
      tsp := tsp - 1;
      if tsp == 0 {
        break;
      }
    }
  }

  predicate Aligned(base: nat, p: nat) { (base + p) % 4 == 0 }

  /** *(uint32_t *)dp = *(uint32_t *)sp: four bytes read, then four bytes written; both addresses must be aligned. */
  method CopyWord(mem: array<byte>, ghost base: nat, dp: nat, sp: nat)
    requires Aligned(base, dp) && Aligned(base, sp)
    requires dp + 4 <= mem.Length && sp + 4 <= mem.Length
    modifies mem
    ensures PartlyMoved(old(mem[..]), mem[..], dp, sp, 0, 4)
  {
    hide Aligned;
    var b0, b1, b2, b3 := mem[sp], mem[sp + 1], mem[sp + 2], mem[sp + 3];
    mem[dp] := b0;
    mem[dp + 1] := b1;
    mem[dp + 2] := b2;
    mem[dp + 3] := b3;
    forall i | dp <= i < dp + 4
      ensures mem[i] == old(mem[i - dp + sp])
    {
      assert i == dp || i == dp + 1 || i == dp + 2 || i == dp + 3;
    }
  }

  lemma WordStepForward(was: seq<byte>, before: seq<byte>, after: seq<byte>, dest: nat, src: nat, k: nat)
    requires dest < src && src + k + 4 <= |was| && PartlyMoved(was, before, dest, src, 0, k)
    requires PartlyMoved(before, after, dest + k, src + k, 0, 4)
    ensures PartlyMoved(was, after, dest, src, 0, k + 4)
  {
    forall i | dest <= i < dest + k + 4
      ensures after[i] == was[i - dest + src]
    {
      if i >= dest + k {
        assert after[i] == before[i - dest + src];
      }
    }
  }

  lemma WordStepBackward(was: seq<byte>, before: seq<byte>, after: seq<byte>, dest: nat, src: nat, k: nat, len: nat)
    requires src <= dest && k + 4 <= len && PartlyMoved(was, before, dest, src, k + 4, len)
    requires PartlyMoved(before, after, dest + k, src + k, 0, 4)
    ensures PartlyMoved(was, after, dest, src, k, len)
  {
    forall i | dest + k <= i < dest + len
      ensures after[i] == was[i - dest + src]
    {
      if i < dest + k + 4 {
        assert after[i] == before[i - dest + src];
      }
    }
  }

  lemma NextWord(base: nat, p: nat)
    requires Aligned(base, p)
    ensures Aligned(base, p + 4)
    ensures p >= 4 ==> Aligned(base, p - 4)
  {
  }

  method WordsForward(mem: array<byte>, ghost base: nat, dp0: nat, sp0: nat, count: nat,
                      ghost was: seq<byte>, ghost dest: nat, ghost src: nat)
    returns (dp: nat, sp: nat)
    requires count > 0 ==> Aligned(base, dp0) && Aligned(base, sp0)
    requires dest < src && dest <= dp0 && sp0 - dp0 == src - dest
    requires sp0 + count * 4 <= mem.Length
    requires PartlyMoved(was, mem[..], dest, src, 0, dp0 - dest)
    modifies mem
    ensures dp == dp0 + count * 4 && sp == sp0 + count * 4
    ensures PartlyMoved(was, mem[..], dest, src, 0, dp - dest)
  {
    dp, sp := dp0, sp0;
    var tsp := count;
    if tsp > 0 {
      while true
        invariant 0 < tsp <= count && Aligned(base, dp) && Aligned(base, sp)
        invariant dp == dp0 + (count - tsp) * 4 && sp == sp0 + (count - tsp) * 4
        invariant PartlyMoved(was, mem[..], dest, src, 0, dp - dest)
        decreases tsp
      {
        ghost var before := mem[..];
        CopyWord(mem, base, dp, sp);
        WordStepForward(was, before, mem[..], dest, src, dp - dest);
        NextWord(base, dp);
        NextWord(base, sp);
        sp := sp + 4;
        dp := dp + 4;
        tsp := tsp - 1;
        if tsp == 0 {
          break;
        }
      }
    }
  }

  /** *--dp = *--sp, tsp times. */
  method BytesBackward(mem: array<byte>, dp0: nat, sp0: nat, count: nat,
                       ghost was: seq<byte>, ghost dest: nat, ghost src: nat, ghost len: nat)
    returns (dp: nat, sp: nat)
    requires count > 0 && src <= dest && src + count <= sp0 && dp0 - sp0 == dest - src && dp0 <= dest + len
    requires PartlyMoved(was, mem[..], dest, src, dp0 - dest, len)
    modifies mem
    ensures dp == dp0 - count && sp == sp0 - count
    ensures PartlyMoved(was, mem[..], dest, src, dp - dest, len)
  {
    dp, sp := dp0, sp0;
    var tsp := count;
    while true
      invariant 0 < tsp <= count && dp == dp0 - (count - tsp) && sp == sp0 - (count - tsp)
      invariant PartlyMoved(was, mem[..], dest, src, dp - dest, len)
      decreases tsp
    {
      dp, sp := dp - 1, sp - 1;
      mem[dp] := mem[sp];
      tsp := tsp - 1;
      if tsp == 0 {
        break;
      }
    }
  }

  method WordsBackward(mem: array<byte>, ghost base: nat, dp0: nat, sp0: nat, count: nat,
                       ghost was: seq<byte>, ghost dest: nat, ghost src: nat, ghost len: nat)
    returns (dp: nat, sp: nat)
    requires count > 0 ==> Aligned(base, dp0) && Aligned(base, sp0)
    requires src <= dest && src + count * 4 <= sp0 && dp0 - sp0 == dest - src && dp0 <= dest + len
    requires PartlyMoved(was, mem[..], dest, src, dp0 - dest, len)
    modifies mem
    ensures dp == dp0 - count * 4 && sp == sp0 - count * 4
    ensures PartlyMoved(was, mem[..], dest, src, dp - dest, len)
  {
    dp, sp := dp0, sp0;
    var tsp := count;
    if tsp > 0 {
      while true
        invariant 0 < tsp <= count && Aligned(base, dp) && Aligned(base, sp)
        invariant dp == dp0 - (count - tsp) * 4 && sp == sp0 - (count - tsp) * 4
        invariant PartlyMoved(was, mem[..], dest, src, dp - dest, len)
        decreases tsp
      {
        NextWord(base, dp);
        NextWord(base, sp);
        sp := sp - 4;
        dp := dp - 4;
        ghost var before := mem[..];
        CopyWord(mem, base, dp, sp);
        WordStepBackward(was, before, mem[..], dest, src, dp - dest, len);
        tsp := tsp - 1;
        if tsp == 0 {
          break;
        }
      }
    }
  }

  /** (x | y) & wmask and (x ^ y) & wmask, as the source tests them. */
  predicate LowBitsSet(x: nat, y: nat) { x % 4 != 0 || y % 4 != 0 }
  predicate LowBitsDiffer(x: nat, y: nat) { x % 4 != y % 4 }

  /** A pointer stored in a uint32_t. */
  function Narrow(p: nat): nat { p % 0x1_0000_0000 }

  /** Narrowing keeps the bits that decide alignment. */
  lemma NarrowingKeepsLowBits(p: nat)
    ensures Narrow(p) % 4 == p % 4
  {
    assert p == Narrow(p) + 4 * (p / 0x1_0000_0000 * 0x4000_0000);
    AddFours(Narrow(p), p / 0x1_0000_0000 * 0x4000_0000);
  }

  lemma AddFours(r: nat, k: nat)
    ensures (r + 4 * k) % 4 == r % 4
  {
  }

  /** Bytes to copy one by one before words can be used going up, 0 if the alignment block is skipped. */
  method HeadForward(dp: nat, sp: nat, len: nat) returns (tsp: nat)
    requires len > 0
    ensures tsp <= len
    ensures tsp == len || ((dp + tsp) % 4 == 0 && (sp + tsp) % 4 == 0)
    ensures tsp == 0 ==> dp % 4 == 0 && sp % 4 == 0
  {
    hide Narrow;
    tsp := Narrow(sp);
    NarrowingKeepsLowBits(sp);
    if LowBitsSet(tsp, dp) {
      if LowBitsDiffer(tsp, dp) || len < 4 {
        tsp := len;
      } else {
        tsp := 4 - tsp % 4;
      }
    } else {
      tsp := 0;
    }
  }

  /** The same going down from the ends. */
  method HeadBackward(dp: nat, sp: nat, len: nat) returns (tsp: nat)
    requires 0 < len && len <= dp && len <= sp
    ensures tsp <= len
    ensures tsp == len || ((dp - tsp) % 4 == 0 && (sp - tsp) % 4 == 0)
    ensures tsp == 0 ==> dp % 4 == 0 && sp % 4 == 0
  {
    hide Narrow;
    tsp := Narrow(sp);
    NarrowingKeepsLowBits(sp);
    if LowBitsSet(tsp, dp) {
      if LowBitsDiffer(tsp, dp) || len <= 4 {
        tsp := len;
      } else {
        tsp := tsp % 4;
      }
    } else {
      tsp := 0;
    }
  }

  method MoveForward(mem: array<byte>, base: nat, dest: nat, src: nat, len0: nat)
    requires 0 < len0 < TWO_32 && dest < src && src + len0 <= mem.Length
    modifies mem
    ensures mem[..] == Moved(old(mem[..]), dest, src, len0)
  {
    ghost var was := mem[..];
    assert PartlyMoved(was, mem[..], dest, src, 0, 0);
    hide PartlyMoved;
    var dp, sp, len := dest, src, len0;
    var tsp := HeadForward(base + dp, base + sp, len);
    if tsp > 0 {
      len := len - tsp;
      dp, sp := BytesForward(mem, dp, sp, tsp, was, dest, src);
    }
    dp, sp := WordsForward(mem, base, dp, sp, len / 4, was, dest, src);
    tsp := len % 4;
    if tsp > 0 {
      dp, sp := BytesForward(mem, dp, sp, tsp, was, dest, src);
    }
    FullyMoved(was, mem[..], dest, src, len0);
  }

  method MoveBackward(mem: array<byte>, base: nat, dest: nat, src: nat, len0: nat)
    requires 0 < len0 < TWO_32 && src <= dest && dest + len0 <= mem.Length
    modifies mem
    ensures mem[..] == Moved(old(mem[..]), dest, src, len0)
  {
    ghost var was := mem[..];
    assert PartlyMoved(was, mem[..], dest, src, len0, len0);
    hide PartlyMoved;
    var dp, sp, len := dest + len0, src + len0, len0;
    var tsp := HeadBackward(base + dp, base + sp, len);
    if tsp > 0 {
      len := len - tsp;
      dp, sp := BytesBackward(mem, dp, sp, tsp, was, dest, src, len0);
    }
    dp, sp := WordsBackward(mem, base, dp, sp, len / 4, was, dest, src, len0);
    tsp := len % 4;
    if tsp > 0 {
      dp, sp := BytesBackward(mem, dp, sp, tsp, was, dest, src, len0);
    }
    FullyMoved(was, mem[..], dest, src, len0);
  }

  /** mem_prim_move: right for every alignment, every overlap and every positive length. */
  method MemPrimMove(mem: array<byte>, base: nat, dest: nat, src: nat, len: nat)
    requires 0 < len < TWO_32 && dest + len <= mem.Length && src + len <= mem.Length
    modifies mem
    ensures mem[..] == Moved(old(mem[..]), dest, src, len)
  {
    if base + dest < base + src {
      MoveForward(mem, base, dest, src, len);
    } else {
      MoveBackward(mem, base, dest, src, len);
    }
  }

  // ---------------------------------------------------------------- mem_prim_set

  /** value repeated in each of the four bytes of a word. */
  function Spread(value: byte): nat {
    var v := value as nat;
    v + v * 0x100 + v * 0x1_0000 + v * 0x100_0000
  }

  method StoreWord(mem: array<byte>, ghost base: nat, lp: nat, value32: nat)
    requires Aligned(base, lp) && lp + 4 <= mem.Length && value32 < TWO_32
    modifies mem
    ensures mem[..] == old(mem[..])[..lp]
                       + [(value32 % 256) as byte, (value32 / 0x100 % 256) as byte,
                          (value32 / 0x1_0000 % 256) as byte, (value32 / 0x100_0000) as byte]
                       + old(mem[..])[lp + 4..]
  {
    mem[lp] := (value32 % 256) as byte;
    mem[lp + 1] := (value32 / 0x100 % 256) as byte;
    mem[lp + 2] := (value32 / 0x1_0000 % 256) as byte;
    mem[lp + 3] := (value32 / 0x100_0000) as byte;
  }

  lemma QuotientBy256(q: nat, r: nat)
    requires r < 256
    ensures (q * 256 + r) / 256 == q && (q * 256 + r) % 256 == r
  {
  }

  lemma SpreadBytes(value: byte)
    ensures Spread(value) < TWO_32
    ensures Spread(value) % 256 == value as int && Spread(value) / 0x100 % 256 == value as int
    ensures Spread(value) / 0x1_0000 % 256 == value as int && Spread(value) / 0x100_0000 == value as int
  {
    var v := value as nat;
    var x := Spread(value);
    QuotientBy256(v + v * 0x100 + v * 0x1_0000, v);
    QuotientBy256(v + v * 0x100, v);
    QuotientBy256(v, v);
    assert x == (v + v * 0x100 + v * 0x1_0000) * 256 + v;
    assert x / 0x1_0000 == x / 256 / 256;
    assert x / 0x100_0000 == x / 256 / 256 / 256;
  }

  /** `now` is `mem` with `n` bytes from dest set to `value` and no other byte touched. */
  ghost predicate PartlyFilled(mem: seq<byte>, now: seq<byte>, dest: nat, n: nat, value: byte) {
    && dest + n <= |mem| && |now| == |mem|
    && (forall i {:trigger now[i]} :: dest <= i < dest + n ==> now[i] == value)
    && (forall i {:trigger now[i]} :: 0 <= i < |mem| && !(dest <= i < dest + n) ==> now[i] == mem[i])
  }

  /** `n` consecutive `*lp++ = value32`: one unrolled block, or the fall-through chain entered at case n. */
  method StoreWords(mem: array<byte>, ghost base: nat, lp0: nat, n: nat, value: byte,
                    ghost was: seq<byte>, ghost dest: nat) returns (lp: nat)
    requires Aligned(base, lp0) && dest <= lp0 && lp0 + n * 4 <= mem.Length
    requires PartlyFilled(was, mem[..], dest, lp0 - dest, value)
    modifies mem
    ensures lp == lp0 + n * 4
    ensures PartlyFilled(was, mem[..], dest, lp - dest, value)
  {
    lp := lp0;
    SpreadBytes(value);
    for k := 0 to n
      invariant lp == lp0 + k * 4 && Aligned(base, lp)
      invariant PartlyFilled(was, mem[..], dest, lp - dest, value)
    {
      StoreWord(mem, base, lp, Spread(value));
      lp := lp + 4;
    }
  }

  method MemPrimSet(mem: array<byte>, base: nat, dest: nat, len: nat, value: byte)
    requires len < TWO_32 && dest + len <= mem.Length
    modifies mem
    ensures mem[..] == Filled(old(mem[..]), dest, len, value)
  {
    ghost var was := mem[..];
    var count, dp := len, dest;
    while count != 0 && (base + dp) % 4 != 0
      invariant 0 <= count <= len && dp == dest + (len - count)
      invariant PartlyFilled(was, mem[..], dest, dp - dest, value)
      decreases count
    {
      mem[dp] := value;
      dp := dp + 1;
      count := count - 1;
    }
    var lp, lcount := dp, count / 4;
    while lcount != 0
      invariant 0 <= lcount && lp + lcount * 4 == dp + count / 4 * 4
      invariant lcount != 0 ==> Aligned(base, lp)
      invariant dp <= lp && PartlyFilled(was, mem[..], dest, lp - dest, value)
    {
      if lcount >= 16 {
        lp := StoreWords(mem, base, lp, 16, value, was, dest);
        lcount := lcount - 16;
      } else {
        lp := StoreWords(mem, base, lp, lcount, value, was, dest);
        lcount := 0;
      }
    }
    dp := lp;
    count := count % 4;
    while count != 0
      invariant 0 <= count && dp + count == dest + len
      invariant PartlyFilled(was, mem[..], dest, dp - dest, value)
      decreases count
    {
      mem[dp] := value;
      dp := dp + 1;
      count := count - 1;
    }
  }

  // ---------------------------------------------------------------- memmove_s

  datatype Pointer = Null | At(index: nat)

  /** memmove_s: the constraint checks in order; a violation that may still write clears dmax bytes of dest. */
  method MemmoveS(mem: array<byte>, base: nat, dest: Pointer, dmax: nat, src: Pointer, smax: nat)
    returns (error: Errno)
    requires dest.At? && dmax <= RSIZE_MAX_MEM ==> dest.index + dmax <= mem.Length
    requires src.At? && smax <= RSIZE_MAX_MEM ==> src.index + smax <= mem.Length
    modifies mem
    ensures error == EOK <==> dest.At? && src.At? && 0 < smax <= dmax <= RSIZE_MAX_MEM
    ensures error == EOK ==> mem[..] == Moved(old(mem[..]), dest.index, src.index, smax)
    ensures error != EOK ==>
              mem[..] == if dest.At? && dmax <= RSIZE_MAX_MEM
                         then Filled(old(mem[..]), dest.index, dmax, 0) else old(mem[..])
    ensures error == ESZEROL <==> dest.At? && dmax <= RSIZE_MAX_MEM && (dmax == 0 || smax == 0)
    ensures error == ESLEMAX <==> dest.At? && dmax > 0 && (dmax > RSIZE_MAX_MEM || smax > dmax)
  {
    if dest.Null? {
      return ESNULLP;
    }
    if dmax == 0 {
      return ESZEROL;
    }
    if dmax > RSIZE_MAX_MEM {
      return ESLEMAX;
    }
    if smax == 0 {
      MemPrimSet(mem, base, dest.index, dmax, 0);
      return ESZEROL;
    }
    if smax > dmax {
      MemPrimSet(mem, base, dest.index, dmax, 0);
      return ESLEMAX;
    }
    if src.Null? {
      MemPrimSet(mem, base, dest.index, dmax, 0);
      return ESNULLP;
    }
    MemPrimMove(mem, base, dest.index, src.index, smax);
    return EOK;
  }
}
