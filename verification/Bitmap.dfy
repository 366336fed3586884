/**
 The bitmap of core ids in use, as 64-bit words, and the listing of a cache's cores from it.
 A word is a natural number below 2^64; bit k of it is read after k halvings.
 */
module Bitmap {
  import opened Stacking

  function Pow2(n: nat): (p: nat)
    ensures p > 0
  {
    if n == 0 then 1 else 2 * Pow2(n - 1)
  }

  /** (w >> k) & 1 */
  predicate Bit(w: nat, k: nat) {
    if k == 0 then w % 2 == 1 else Bit(w / 2, k - 1)
  }

  /** w & (~0 << s): the low s bits cleared. */
  function Cleared(w: nat, s: nat): nat {
    if s == 0 then w else 2 * Cleared(w / 2, s - 1)
  }

  /** __builtin_ctzll: the number of trailing zero bits. */
  function TrailingZeros(w: nat): nat
    requires w > 0
  {
    if w % 2 == 1 then 0 else 1 + TrailingZeros(w / 2)
  }

  lemma {:induction false} ClearedBit(w: nat, s: nat, k: nat)
    ensures Bit(Cleared(w, s), k) <==> k >= s && Bit(w, k)
  {
    if s > 0 && k > 0 {
      ClearedBit(w / 2, s - 1, k - 1);
      assert 2 * Cleared(w / 2, s - 1) / 2 == Cleared(w / 2, s - 1);
    }
  }

  lemma {:induction false} ClearedBound(w: nat, s: nat)
    ensures Cleared(w, s) <= w
  {
    if s > 0 {
      ClearedBound(w / 2, s - 1);
    }
  }

  lemma {:induction false} ZeroHasNoBit(k: nat)
    ensures !Bit(0, k)
  {
    if k > 0 {
      ZeroHasNoBit(k - 1);
    }
  }

  /** The lowest set bit is where the trailing zeros end. */
  lemma {:induction false} LowestBit(w: nat, n: nat)
    requires 0 < w < Pow2(n)
    ensures TrailingZeros(w) < n && Bit(w, TrailingZeros(w))
    ensures forall k :: 0 <= k < TrailingZeros(w) ==> !Bit(w, k)
  {
    if w % 2 == 0 {
      LowestBit(w / 2, n - 1);
      forall k | 0 <= k < TrailingZeros(w)
        ensures !Bit(w, k)
      {
        if k > 0 {
          assert !Bit(w / 2, k - 1);
        }
      }
    }
  }

  ghost predicate Words(bitmap: seq<nat>) {
    forall i :: 0 <= i < |bitmap| ==> bitmap[i] < Pow2(64)
  }

  /** core_id_bitmap_test. */
  predicate Test(bitmap: seq<nat>, id: nat)
    requires id < 64 * |bitmap|
  {
    Bit(bitmap[id / 64], id % 64)
  }

  /** Looking at one bit after another: the first set one at or after `id`, or `num` past the last word. */
  function Scan(bitmap: seq<nat>, num: nat, id: nat): nat
    decreases 64 * |bitmap| - id
  {
    if id >= 64 * |bitmap| then num
    else if Test(bitmap, id) then id
    else Scan(bitmap, num, id + 1)
  }

  /** No bit is set from `from` up to `to`. */
  ghost predicate Clear(bitmap: seq<nat>, from: nat, to: nat)
    requires to <= 64 * |bitmap|
  {
    forall id: nat :: from <= id < to ==> !Test(bitmap, id)
  }

  lemma {:induction false} ScanSkips(bitmap: seq<nat>, num: nat, from: nat, to: nat)
    requires from <= to <= 64 * |bitmap| && Clear(bitmap, from, to)
    ensures Scan(bitmap, num, from) == Scan(bitmap, num, to)
    decreases 64 * |bitmap| - from
  {
    if from < to {
      ScanSkips(bitmap, num, from + 1, to);
    }
  }

  /** w holds the bits of word i that lie at or after start. */
  ghost predicate Window(bitmap: seq<nat>, start: nat, i: nat, w: nat)
    requires i < |bitmap|
  {
    w < Pow2(64) && forall k :: 0 <= k < 64 ==> (Bit(w, k) <==> 64 * i + k >= start && Bit(bitmap[i], k))
  }

  /** An empty window rules out the rest of its word. */
  lemma {:induction false} EmptyWindow(bitmap: seq<nat>, start: nat, i: nat, from: nat)
    requires i < |bitmap| && Window(bitmap, start, i, 0) && start <= from && 64 * i <= from <= 64 * i + 64
    ensures Clear(bitmap, from, 64 * i + 64)
  {
    forall id: nat | from <= id < 64 * i + 64
      ensures !Test(bitmap, id)
    {
      ZeroHasNoBit(id - 64 * i);
      assert id / 64 == i && id % 64 == id - 64 * i;
    }
  }

  lemma {:induction false} WindowFound(bitmap: seq<nat>, num: nat, start: nat, i: nat, w: nat, from: nat)
    requires i < |bitmap| && w > 0 && Window(bitmap, start, i, w)
    requires from == if start > 64 * i then start else 64 * i
    requires from < 64 * i + 64
    ensures Scan(bitmap, num, from) == 64 * i + TrailingZeros(w)
  {
    LowestBit(w, 64);
    var r := 64 * i + TrailingZeros(w);
    assert r / 64 == i && r % 64 == TrailingZeros(w);
    forall id: nat | from <= id < r
      ensures !Test(bitmap, id)
    {
      assert id / 64 == i && id % 64 == id - 64 * i;
      assert !Bit(w, id - 64 * i);
    }
    ScanSkips(bitmap, num, from, r);
  }

  /** core_id_bitmap_next skips empty words and yet answers as the bit-by-bit scan. */
  method Next(bitmap: seq<nat>, num: nat, start: nat) returns (r: nat)
    requires |bitmap| == (num + 63) / 64 && Words(bitmap)
    ensures r == Scan(bitmap, num, start)
  {
    var wordIdx := start / 64;
    if wordIdx >= |bitmap| {
      return num;
    }
    var w := Cleared(bitmap[wordIdx], start % 64);
    ghost var from := start;
    FirstWindow(bitmap, start);
    while w == 0
      invariant wordIdx < |bitmap| && Window(bitmap, start, wordIdx, w)
      invariant from == if start > 64 * wordIdx then start else 64 * wordIdx
      invariant from < 64 * wordIdx + 64 && Scan(bitmap, num, start) == Scan(bitmap, num, from)
      decreases |bitmap| - wordIdx
    {
      EmptyWindow(bitmap, start, wordIdx, from);
      ScanSkips(bitmap, num, from, 64 * wordIdx + 64);
      from := 64 * wordIdx + 64;
      wordIdx := wordIdx + 1;
      if wordIdx >= |bitmap| {
        return num;
      }
      w := bitmap[wordIdx];
    }
    WindowFound(bitmap, num, start, wordIdx, w, from);
    return wordIdx * 64 + TrailingZeros(w);
  }

  lemma {:induction false} FirstWindow(bitmap: seq<nat>, start: nat)
    requires Words(bitmap) && start / 64 < |bitmap|
    ensures Window(bitmap, start, start / 64, Cleared(bitmap[start / 64], start % 64))
  {
    var i := start / 64;
    ClearedBound(bitmap[i], start % 64);
    forall k | 0 <= k < 64
      ensures Bit(Cleared(bitmap[i], start % 64), k) <==> 64 * i + k >= start && Bit(bitmap[i], k)
    {
      ClearedBit(bitmap[i], start % 64, k);
    }
  }

  // ---------------------------------------------------------------- the promise of core_id_bitmap_next

  /** The next set bit at or after start that is a core id, or num if there is none. */
  ghost predicate NextId(bitmap: seq<nat>, num: nat, start: nat, r: nat)
    requires num <= 64 * |bitmap|
  {
    if r < num then start <= r && Test(bitmap, r) && Clear(bitmap, start, r)
    else r == num && Clear(bitmap, start, num)
  }

  lemma {:induction false} ScanFinds(bitmap: seq<nat>, num: nat, start: nat)
    requires num <= 64 * |bitmap|
    ensures var r := Scan(bitmap, num, start);
      (r == num && Clear(bitmap, start, 64 * |bitmap|))
      || (start <= r < 64 * |bitmap| && Test(bitmap, r) && Clear(bitmap, start, r))
    decreases 64 * |bitmap| - start
  {
    if start < 64 * |bitmap| && !Test(bitmap, start) {
      ScanFinds(bitmap, num, start + 1);
    }
  }

  /**
   Bits past the last core id, in the last word, are not looked at separately: the answer is as promised
   unless no core id is left and one of the bits after `num` itself is set.
   */
  lemma {:induction false} NextAsPromisedIff(bitmap: seq<nat>, num: nat, start: nat)
    requires |bitmap| == (num + 63) / 64
    ensures NextId(bitmap, num, start, Scan(bitmap, num, start)) <==>
      (!Clear(bitmap, start, num)
       || (num < 64 * |bitmap| && start <= num && Test(bitmap, num))
       || Clear(bitmap, if start > num then start else num, 64 * |bitmap|))
  {
    ScanFinds(bitmap, num, start);
  }

  /** If the ids fill whole words, as any multiple of 64 does, the answer is always as promised. */
  lemma {:induction false} WholeWordsKeepPromise(bitmap: seq<nat>, num: nat, start: nat)
    requires |bitmap| == (num + 63) / 64 && num % 64 == 0
    ensures NextId(bitmap, num, start, Scan(bitmap, num, start))
  {
    assert num == 64 * |bitmap|;
    ScanFinds(bitmap, num, start);
  }

  /** With one core id and only bit 2 of its word set, 2 is returned where 1 is promised. */
  lemma {:induction false} StrayBitIsReturned()
    ensures Words([4]) && Scan([4], 1, 0) == 2 && !NextId([4], 1, 0, Scan([4], 1, 0))
  {
    Pow2Grows(3, 64);
    assert Pow2(3) == 8;
    assert !Bit(4, 0);
    assert !Bit(4, 1) by {
      assert !Bit(2, 0);
    }
    assert Bit(4, 2) by {
      assert Bit(1, 0) && Bit(2, 1);
    }
    assert !Test([4], 0) && !Test([4], 1) && Test([4], 2);
    assert Scan([4], 1, 1) == Scan([4], 1, 2) == 2;
  }

  lemma {:induction false} Pow2Grows(a: nat, b: nat)
    requires a <= b
    ensures Pow2(a) <= Pow2(b)
  {
    if a < b {
      Pow2Grows(a, b - 1);
    }
  }

  // ---------------------------------------------------------------- listing the cores of a cache

  ghost predicate Ascending(cores: seq<Core>) {
    forall i, j :: 0 <= i < j < |cores| ==> cores[i].id < cores[j].id
  }

  /** Exactly the set bits below `to` are listed. */
  ghost predicate ListsBelow(bitmap: seq<nat>, cores: seq<Core>, to: nat)
    requires to <= 64 * |bitmap|
  {
    (forall i :: 0 <= i < |cores| ==> cores[i].id < to)
    && forall id: nat :: id < to ==> (Test(bitmap, id) <==> Listed(cores, id))
  }

  /**
   The loop of get_cache_device: each set bit once, ascending and none skipped, until the core count is
   reached, the bits end, or a core cannot be looked up. Bits beyond the last core id are taken for ids
   as well, except that the one at `num` itself ends the listing, and hides those behind it.
   */
  method ListCores(bitmap: seq<nat>, num: nat, coreCount: nat, lookup: nat -> string, found: nat -> bool)
    returns (cores: seq<Core>, ghost to: nat)
    requires |bitmap| == (num + 63) / 64 && Words(bitmap)
    ensures |cores| <= coreCount && Ascending(cores) && to <= 64 * |bitmap| && ListsBelow(bitmap, cores, to)
    ensures forall i :: 0 <= i < |cores| ==> found(cores[i].id) && cores[i].path == lookup(cores[i].id)
    ensures |cores| == coreCount || to == 64 * |bitmap| || (Test(bitmap, to) && (to == num || !found(to)))
  {
    cores := [];
    to := 0;
    var coreId := 0;
    while |cores| < coreCount
      invariant |cores| <= coreCount && Ascending(cores) && to == coreId <= 64 * |bitmap| && ListsBelow(bitmap, cores, to)
      invariant forall i :: 0 <= i < |cores| ==> found(cores[i].id) && cores[i].path == lookup(cores[i].id)
    {
      ScanFinds(bitmap, num, coreId);
      coreId := Next(bitmap, num, coreId);
      ghost var next := if coreId < 64 * |bitmap| && to <= coreId && Test(bitmap, coreId) then coreId else 64 * |bitmap|;
      ClearExtends(bitmap, cores, to, next);
      to := next;
      if coreId == num {
        break;
      }
      if !found(coreId) {
        break;
      }
      AppendExtends(bitmap, cores, to, lookup(coreId));
      cores := cores + [Core(coreId, lookup(coreId))];
      coreId := coreId + 1;
      to := coreId;
    }
  }

  lemma {:induction false} ClearExtends(bitmap: seq<nat>, cores: seq<Core>, to: nat, more: nat)
    requires to <= more <= 64 * |bitmap| && ListsBelow(bitmap, cores, to) && Clear(bitmap, to, more)
    ensures ListsBelow(bitmap, cores, more)
  {
  }

  lemma {:induction false} AppendExtends(bitmap: seq<nat>, cores: seq<Core>, to: nat, path: string)
    requires to < 64 * |bitmap| && ListsBelow(bitmap, cores, to) && Test(bitmap, to) && Ascending(cores)
    ensures ListsBelow(bitmap, cores + [Core(to, path)], to + 1) && Ascending(cores + [Core(to, path)])
  {
    var more := cores + [Core(to, path)];
    forall id: nat | id < to + 1
      ensures Test(bitmap, id) <==> Listed(more, id)
    {
      if id == to {
        assert more[|cores|].id == to;
      } else if Listed(cores, id) {
        var i :| 0 <= i < |cores| && cores[i].id == id;
        assert more[i].id == id;
      }
    }
  }

  /** With every lookup succeeding and the count not too small, the listing is what the walk of Stacking needs. */
  lemma {:induction false} ListingIsComplete(cfg: Config, listing: Listing, bitmaps: map<nat, seq<nat>>, tos: map<nat, nat>, num: nat)
    requires forall c | c in cfg :: c in listing && c in bitmaps && c in tos && num <= tos[c] <= 64 * |bitmaps[c]|
    requires forall c | c in cfg :: ListsBelow(bitmaps[c], listing[c], tos[c])
    requires forall c: nat, k: nat | HasCore(cfg, c, k) :: k < num && Test(bitmaps[c], k)
    ensures Complete(listing, cfg)
  {
    forall c, k | HasCore(cfg, c, k)
      ensures c in listing && Listed(listing[c], k)
    {
      assert Test(bitmaps[c], k);
    }
  }
}
