/**
 * The contiguous physical frame pool: a bitmap with two bits per frame that
 * records, for every frame of the pool, whether it is free, the head of an
 * allocated sequence of frames, or an allocated frame that continues a sequence.
 * All pools of the system are kept in a singly linked list so that a sequence
 * can be released knowing only its first frame number.
 */
module FramePool {
  import opened Util

  /** The frame size equals the machine's page size. */
  const FRAME_SIZE: nat := 4096

  /** Frames whose states fit in one info frame: 4096 bytes of four 2-bit states. */
  const FRAMES_PER_INFO_FRAME: nat := 16384

  /** The three 2-bit state codes; both bits set is not a valid state. */
  const ALLOCATE_BUT_NOT_HEAD: bv8 := 0x0
  const ALLOCATE_AND_HEAD: bv8 := 0x2
  const FREE: bv8 := 0x1

  /** The state of one frame. */
  datatype FrameState = Allocated | Free | Head

  /** The 2-bit code a state is stored as. */
  function Code(s: FrameState): (c: bv8)
    ensures c <= 3
    ensures (c & FREE == FREE) <==> s == Free
    ensures c & ALLOCATE_AND_HEAD == ALLOCATE_AND_HEAD <==> s == Head
  {
    match s
    case Allocated => ALLOCATE_BUT_NOT_HEAD
    case Free => FREE
    case Head => ALLOCATE_AND_HEAD
  }

  // ---------------------------------------------------------------------------
  // The bitmap byte: four 2-bit fields bmp0 (bits 0-1) .. bmp3 (bits 6-7).
  // ---------------------------------------------------------------------------

  /** Field `k` of a bitmap byte. */
  function GetField(b: bv8, k: nat): (v: bv8)
    requires k < 4
    ensures v <= 3
  {
    if k == 0 then b & 0x03
    else if k == 1 then (b >> 2) & 0x03
    else if k == 2 then (b >> 4) & 0x03
    else (b >> 6) & 0x03
  }

  /** The byte with field `k` replaced by the low two bits of `v`. */
  function SetField(b: bv8, k: nat, v: bv8): (r: bv8)
    requires k < 4
    ensures GetField(r, k) == v & 0x03
    ensures forall k' :: 0 <= k' < 4 && k' != k ==> GetField(r, k') == GetField(b, k')
  {
    if k == 0 then (b & 0xFC) | (v & 0x03)
    else if k == 1 then (b & 0xF3) | ((v & 0x03) << 2)
    else if k == 2 then (b & 0xCF) | ((v & 0x03) << 4)
    else (b & 0x3F) | ((v & 0x03) << 6)
  }

  /** A bitmap byte is exactly its four fields. */
  lemma ByteIsFourFields(b: bv8)
    ensures b == GetField(b, 0) | (GetField(b, 1) << 2) | (GetField(b, 2) << 4) | (GetField(b, 3) << 6)
  {
  }

  /** Bytes of bitmap needed for `n` frames. */
  function BitmapBytes(n: nat): nat
  {
    (n + 3) / 4
  }

  /** needed_info_frames: the number of info frames a pool of `n` frames needs, rounded up. */
  function NeededInfoFrames(n: nat): (r: nat)
    ensures r * FRAMES_PER_INFO_FRAME >= n
    ensures r > 0 ==> (r - 1) * FRAMES_PER_INFO_FRAME < n
    ensures r * FRAME_SIZE >= BitmapBytes(n)
  {
    n / 16384 + (if n % 16384 > 0 then 1 else 0)
  }

  /** More frames never need fewer info frames. */
  lemma NeededInfoFramesMonotone(m: nat, n: nat)
    requires m <= n
    ensures NeededInfoFrames(m) <= NeededInfoFrames(n)
  {
  }

  // ---------------------------------------------------------------------------
  // The abstract view: the sequence of frame states of a pool.
  // ---------------------------------------------------------------------------

  /** The number of free frames. */
  function FreeCount(s: seq<FrameState>): (r: nat)
    ensures r <= |s|
  {
    if s == [] then 0 else (if s[0] == Free then 1 else 0) + FreeCount(s[1..])
  }

  /** Changing one frame changes the free count by that frame alone. */
  lemma {:induction false} FreeCountUpdate(s: seq<FrameState>, i: nat, x: FrameState)
    requires i < |s|
    ensures FreeCount(s[i := x]) + (if s[i] == Free then 1 else 0)
         == FreeCount(s) + (if x == Free then 1 else 0)
  {
    if i == 0 {
      assert s[i := x][1..] == s[1..];
    } else {
      assert s[i := x][1..] == s[1..][i - 1 := x];
      FreeCountUpdate(s[1..], i - 1, x);
    }
  }

  /** Frame `j` exists and is free. */
  predicate FreeAt(s: seq<FrameState>, j: int)
  {
    0 <= j < |s| && s[j] == Free
  }

  /** The `len` frames from `i` on all exist and are free, and frame `i` exists. */
  predicate WindowFree(s: seq<FrameState>, i: int, len: nat)
  {
    0 <= i < |s| && i + len <= |s| && forall k :: i <= k < i + len ==> s[k] == Free
  }

  /**
   * Every allocated frame continues a sequence: the frame before it is
   * allocated or a head.
   */
  predicate WellFormedRuns(s: seq<FrameState>)
  {
    forall k :: 0 <= k < |s| && s[k] == Allocated ==> k > 0 && s[k - 1] != Free
  }

  /** The states after frames `i` .. `i + len - 1` become one sequence headed at `i`. */
  function MarkRun(s: seq<FrameState>, i: nat, len: nat): (r: seq<FrameState>)
    requires i + len <= |s|
    ensures |r| == |s|
    ensures len > 0 ==> r[i] == Head
    ensures forall k :: i < k < i + len ==> r[k] == Allocated
    ensures forall k :: 0 <= k < |s| && !(i <= k < i + len) ==> r[k] == s[k]
  {
    seq(|s|, k requires 0 <= k < |s| =>
      if i <= k < i + len then (if k == i then Head else Allocated) else s[k])
  }

  /** The states after frames `lo` .. `hi - 1` become free. */
  function FreeRange(s: seq<FrameState>, lo: int, hi: int): (r: seq<FrameState>)
    ensures |r| == |s|
  {
    seq(|s|, k requires 0 <= k < |s| => if lo <= k < hi then Free else s[k])
  }

  /** Marking a free window of `len` frames removes exactly `len` free frames. */
  lemma {:induction false} MarkRunCount(s: seq<FrameState>, i: nat, len: nat)
    requires WindowFree(s, i, len)
    ensures FreeCount(MarkRun(s, i, len)) + len == FreeCount(s)
  {
    if len == 0 {
      assert MarkRun(s, i, 0) == s;
    } else {
      MarkRunCount(s, i, len - 1);
      var x := if len == 1 then Head else Allocated;
      assert MarkRun(s, i, len) == MarkRun(s, i, len - 1)[i + len - 1 := x];
      FreeCountUpdate(MarkRun(s, i, len - 1), i + len - 1, x);
    }
  }

  /** Marking a free window keeps every sequence well formed. */
  lemma MarkRunKeepsRuns(s: seq<FrameState>, i: nat, len: nat)
    requires WellFormedRuns(s) && WindowFree(s, i, len)
    ensures WellFormedRuns(MarkRun(s, i, len))
  {
  }

  /** Freeing `hi - lo` allocated frames adds exactly that many free frames. */
  lemma {:induction false} FreeRangeCount(s: seq<FrameState>, lo: nat, hi: nat)
    requires lo <= hi <= |s|
    requires forall k :: lo <= k < hi ==> s[k] != Free
    ensures FreeCount(FreeRange(s, lo, hi)) == FreeCount(s) + (hi - lo)
  {
    if lo == hi {
      assert FreeRange(s, lo, hi) == s;
    } else {
      FreeRangeCount(s, lo, hi - 1);
      assert FreeRange(s, lo, hi) == FreeRange(s, lo, hi - 1)[hi - 1 := Free];
      FreeCountUpdate(FreeRange(s, lo, hi - 1), hi - 1, Free);
    }
  }

  /**
   * The first frame `i` at or after `from` at which a free window of `len`
   * frames starts.
   */
  function FirstFitFrom(s: seq<FrameState>, len: nat, from: nat): (r: Option<nat>)
    ensures r.Some? ==> from <= r.value && WindowFree(s, r.value, len)
    ensures r.Some? ==> forall i :: from <= i < r.value ==> !WindowFree(s, i, len)
    ensures r.None? ==> forall i :: from <= i ==> !WindowFree(s, i, len)
    decreases |s| - from
  {
    if from >= |s| then None
    else if WindowFree(s, from, len) then Some(from)
    else FirstFitFrom(s, len, from + 1)
  }

  /** The lowest frame at which a free window of `len` frames starts. */
  function FirstFit(s: seq<FrameState>, len: nat): (r: Option<nat>)
    ensures r.Some? ==> WindowFree(s, r.value, len)
    ensures r.Some? ==> forall i :: 0 <= i < r.value ==> !WindowFree(s, i, len)
    ensures r.None? ==> forall i :: 0 <= i ==> !WindowFree(s, i, len)
  {
    FirstFitFrom(s, len, 0)
  }

  /**
   * The number of consecutive frames from `st` on that are not free: the
   * frames the release loop frees, as written.
   */
  function RunLength(s: seq<FrameState>, st: int): (r: nat)
    ensures r > 0 ==> 0 <= st && st + r <= |s|
    ensures forall k :: st <= k < st + r ==> 0 <= k < |s| && s[k] != Free
    ensures 0 <= st + r < |s| && 0 <= st ==> s[st + r] == Free
    decreases |s| - st
  {
    if 0 <= st < |s| && s[st] != Free then 1 + RunLength(s, st + 1) else 0
  }

  /** The states after the as-written release starting at frame `st`. */
  function ReleaseRun(s: seq<FrameState>, st: int): (r: seq<FrameState>)
    ensures |r| == |s|
    ensures forall k :: st <= k < st + RunLength(s, st) ==> r[k] == Free
    ensures forall k :: 0 <= k < |s| && k < st ==> r[k] == s[k]
    ensures forall k :: 0 <= k < |s| && st + RunLength(s, st) <= k ==> r[k] == s[k]
  {
    FreeRange(s, st, st + RunLength(s, st))
  }

  /** The as-written release adds one free frame per frame it frees. */
  lemma ReleaseRunCount(s: seq<FrameState>, st: int)
    ensures FreeCount(ReleaseRun(s, st)) == FreeCount(s) + RunLength(s, st)
  {
    if RunLength(s, st) == 0 {
      assert ReleaseRun(s, st) == s;
    } else {
      FreeRangeCount(s, st, st + RunLength(s, st));
    }
  }

  /** The as-written release keeps every sequence well formed. */
  lemma ReleaseRunKeepsRuns(s: seq<FrameState>, st: int)
    requires WellFormedRuns(s)
    ensures WellFormedRuns(ReleaseRun(s, st))
  {
    var r := ReleaseRun(s, st);
    var len := RunLength(s, st);
    forall k | 0 <= k < |r| && r[k] == Allocated
      ensures k > 0 && r[k - 1] != Free
    {
      assert !(st <= k < st + len);
    }
  }

  // ---------------------------------------------------------------------------
  // The intended behaviour: windows of exactly n frames, and release of one
  // sequence (a head and the allocated frames that follow it).
  // ---------------------------------------------------------------------------

  /** The number of allocated (non-head) frames from `k` on. */
  function ContinuationLength(s: seq<FrameState>, k: nat): (r: nat)
    requires k <= |s|
    ensures k + r <= |s|
    ensures forall j :: k <= j < k + r ==> s[j] == Allocated
    ensures k + r < |s| ==> s[k + r] != Allocated
    decreases |s| - k
  {
    if k < |s| && s[k] == Allocated then 1 + ContinuationLength(s, k + 1) else 0
  }

  /** The length of the sequence headed at `st`; 0 when `st` is not a head. */
  function SequenceLength(s: seq<FrameState>, st: int): (r: nat)
    ensures r > 0 ==> 0 <= st && st + r <= |s| && s[st] == Head
    ensures forall j :: st < j < st + r ==> 0 <= j < |s| && s[j] == Allocated
  {
    if 0 <= st < |s| && s[st] == Head then 1 + ContinuationLength(s, st + 1) else 0
  }

  /** The intended release: frees the sequence headed at `st` and nothing else. */
  function ReleaseSequence(s: seq<FrameState>, st: int): (r: seq<FrameState>)
    ensures |r| == |s|
    ensures FreeCount(r) == FreeCount(s) + SequenceLength(s, st)
  {
    var len := SequenceLength(s, st);
    if len == 0 then
      assert FreeRange(s, st, st) == s;
      s
    else
      FreeRangeCount(s, st, st + len);
      FreeRange(s, st, st + len)
  }

  /** The allocation a pool should make: the first free window of exactly `n` frames. */
  function IntendedGetFrames(s: seq<FrameState>, n: nat): (r: Option<(nat, seq<FrameState>)>)
    requires n > 0
    ensures r.Some? ==> WindowFree(s, r.value.0, n) && r.value.1 == MarkRun(s, r.value.0, n)
    ensures r.Some? ==> forall i :: 0 <= i < r.value.0 ==> !WindowFree(s, i, n)
    ensures r.Some? ==> FreeCount(r.value.1) + n == FreeCount(s)
    ensures r.None? ==> forall i :: 0 <= i ==> !WindowFree(s, i, n)
  {
    match FirstFit(s, n)
    case None => None
    case Some(i) =>
      MarkRunCount(s, i, n);
      Some((i, MarkRun(s, i, n)))
  }

  /** Inside a sequence marked at `i`, the allocated frames run exactly to its end. */
  lemma {:induction false} ContinuationOfMarkedRun(s: seq<FrameState>, i: nat, n: nat, k: nat)
    requires WellFormedRuns(s) && WindowFree(s, i, n) && n > 0
    requires i < k <= i + n
    ensures ContinuationLength(MarkRun(s, i, n), k) == i + n - k
    decreases i + n - k
  {
    var t := MarkRun(s, i, n);
    if k < i + n {
      ContinuationOfMarkedRun(s, i, n, k + 1);
    } else if k < |t| {
      assert s[k - 1] == Free;
      assert t[k] != Allocated;
    }
  }

  /** The intended release undoes the intended allocation exactly. */
  lemma IntendedRoundTrip(s: seq<FrameState>, n: nat)
    requires WellFormedRuns(s) && n > 0
    requires IntendedGetFrames(s, n).Some?
    ensures var (i, t) := IntendedGetFrames(s, n).value;
      SequenceLength(t, i) == n && ReleaseSequence(t, i) == s
  {
    var (i, t) := IntendedGetFrames(s, n).value;
    if n > 1 {
      ContinuationOfMarkedRun(s, i, n, i + 1);
    } else if i + 1 < |t| {
      assert s[i] == Free;
      assert t[i + 1] != Allocated;
    }
    assert SequenceLength(t, i) == n;
    assert ReleaseSequence(t, i) == FreeRange(t, i, i + n);
  }

  /**
   * The as-written release frees a neighbouring sequence too: with two
   * single-frame sequences side by side, releasing the first frees both, where
   * the intended release frees the first alone.
   */
  lemma ReleaseSpillsIntoNeighbour()
    ensures var s := [Head, Head, Free];
      ReleaseRun(s, 0) == [Free, Free, Free] && ReleaseSequence(s, 0) == [Free, Head, Free]
  {
    var s := [Head, Head, Free];
    assert RunLength(s, 2) == 0;
    assert RunLength(s, 0) == 2;
    assert ContinuationLength(s, 1) == 0;
    assert ReleaseRun(s, 0) == FreeRange(s, 0, 2);
    assert ReleaseSequence(s, 0) == FreeRange(s, 0, 1);
  }

  /**
   * The as-written allocation of `n` frames takes a window of `n + 1`: on a
   * pool of 8 free frames a request for 2 frames leaves 5 free, not 6.
   */
  lemma GetFramesTakesOneExtra()
    ensures var s, n := seq(8, _ => Free), 2;
      FirstFit(s, n + 1) == Some(0) && FreeCount(MarkRun(s, 0, n + 1)) == 5 &&
      FreeCount(s) - n == 6
  {
    var s := seq(8, _ => Free);
    assert WindowFree(s, 0, 3);
    MarkRunCount(s, 0, 3);
    assert FreeCount(s) == 8 by {
      AllFreeCount(s);
    }
  }

  /** A pool whose frames are all free has all of them in its free count. */
  lemma {:induction false} AllFreeCount(s: seq<FrameState>)
    requires forall k :: 0 <= k < |s| ==> s[k] == Free
    ensures FreeCount(s) == |s|
  {
    if s != [] {
      AllFreeCount(s[1..]);
    }
  }

  /** A new pool's states: all free, but for the first frame when it holds the bitmap. */
  function InitialStates(n: nat, bitmapInPool: bool): (r: seq<FrameState>)
    ensures |r| == n && WellFormedRuns(r)
  {
    seq(n, k => if bitmapInPool && k == 0 then Head else Free)
  }

  /** A new pool's free frames are all its frames but the bitmap's. */
  lemma InitialStatesCount(n: nat, bitmapInPool: bool)
    requires n > 0 || !bitmapInPool
    ensures FreeCount(InitialStates(n, bitmapInPool)) == if bitmapInPool then n - 1 else n
  {
    AllFreeCount(seq(n, _ => Free));
    if bitmapInPool {
      assert InitialStates(n, true) == seq(n, _ => Free)[0 := Head];
      FreeCountUpdate(seq(n, _ => Free), 0, Head);
    } else {
      assert InitialStates(n, false) == seq(n, _ => Free);
    }
  }

  /** Frame `i`'s field of bitmap `b`, field i % 4 of byte i / 4, holds the code of its state. */
  predicate Encoded(b: seq<bv8>, s: seq<FrameState>, i: nat)
    requires i < |s| && i / 4 < |b|
  {
    GetField(b[i / 4], i % 4) == Code(s[i])
  }

  // ---------------------------------------------------------------------------
  // The pool object.
  // ---------------------------------------------------------------------------

  /** A pool of `nFrames` frames starting at frame `baseFrameNo`. */
  class ContFramePool {
    /** The bitmap, four frame states per byte. */
    const bitmap: array<bv8>
    /** The frame that holds the bitmap: the pool's first frame or the given info frame. */
    const bitmapFrame: nat
    const baseFrameNo: nat
    const nFrames: nat
    const infoFrameNo: nat
    const nInfoFrames: nat
    var nFreeFrames: nat
    /** The next pool in the list of all pools. */
    var next: ContFramePool?
    /** The state of every frame, as the bitmap encodes it. */
    ghost var states: seq<FrameState>

    /** The bitmap encodes `states`. */
    ghost predicate Wf()
      reads this`states, bitmap
    {
      bitmap.Length == BitmapBytes(nFrames) && |states| == nFrames &&
      forall i :: 0 <= i < nFrames ==> Encoded(bitmap[..], states, i)
    }

    /**
     * The pool invariant: the bitmap encodes `states`, every sequence is well
     * formed and the free counter is at least the number of free frames.
     */
    ghost predicate Valid()
      reads this`states, this`nFreeFrames, bitmap
    {
      Wf() && WellFormedRuns(states) && FreeCount(states) <= nFreeFrames
    }

    /** The free counter is exact. */
    ghost predicate Accurate()
      reads this`states, this`nFreeFrames
    {
      FreeCount(states) == nFreeFrames
    }

    /** Frame number `f` belongs to this pool. */
    predicate Contains(f: nat)
    {
      baseFrameNo <= f < baseFrameNo + nFrames
    }

    /**
     * Sets up a pool whose frames are all free, except that the pool's first
     * frame holds the bitmap, and is allocated, when no info frame is given;
     * then appends the pool to the list of all pools.
     */
    constructor (base: nat, n: nat, info: nat, nInfo: nat, reg: PoolRegistry)
      requires info != 0 || n > 0
      requires reg.Linked()
      modifies reg, reg.pools
      ensures baseFrameNo == base && nFrames == n && infoFrameNo == info && nInfoFrames == nInfo
      ensures bitmapFrame == if info == 0 then base else info
      ensures states == InitialStates(n, info == 0)
      ensures nFreeFrames == if info == 0 then n - 1 else n
      ensures Valid() && Accurate() && next == null && fresh(bitmap)
      ensures reg.Linked() && reg.pools == old(reg.pools) + [this]
      ensures forall p :: p in old(reg.pools) ==>
        p.states == old(p.states) && p.nFreeFrames == old(p.nFreeFrames)
    {
      baseFrameNo := base;
      nFrames := n;
      nFreeFrames := n;
      infoFrameNo := info;
      nInfoFrames := nInfo;
      bitmapFrame := if info == 0 then base else info;
      bitmap := new bv8[BitmapBytes(n)](_ => ALLOCATE_BUT_NOT_HEAD);
      next := null;
      new;
      states := seq(n, _ => Allocated);
      InitStates(info == 0);
      reg.Append(this);
    }

    /**
     * The constructor's bitmap set-up: every frame becomes free, then the
     * first frame becomes a head when it holds the bitmap.
     */
    method InitStates(bitmapInPool: bool)
      requires Wf() && nFreeFrames == nFrames && (bitmapInPool ==> nFrames > 0)
      modifies this`states, this`nFreeFrames, bitmap
      ensures states == InitialStates(nFrames, bitmapInPool)
      ensures nFreeFrames == if bitmapInPool then nFrames - 1 else nFrames
      ensures Valid() && Accurate()
    {
      MarkAllFree();
      if bitmapInPool {
        SetState(0, 0, Head);
        nFreeFrames := nFreeFrames - 1;
      }
      assert states == InitialStates(nFrames, bitmapInPool);
      InitialStatesCount(nFrames, bitmapInPool);
    }

    /** The constructor's loop: every frame of the pool becomes free. */
    method MarkAllFree()
      requires Wf()
      modifies this`states, bitmap
      ensures Wf() && states == seq(nFrames, _ => Free)
    {
      for i := 0 to nFrames
        invariant Wf()
        invariant forall k :: 0 <= k < i ==> states[k] == Free
      {
        SetState(i / 4, i % 4, Free);
      }
    }

    /** getState: field `k` of bitmap byte `q`. */
    method GetState(q: nat, k: nat) returns (v: bv8)
      requires Wf() && q < bitmap.Length && k < 4
      ensures v == GetField(bitmap[q], k)
      ensures 4 * q + k < nFrames ==> v == Code(states[4 * q + k])
    {
      if k == 0 {
        v := bitmap[q] & 0x03;
      }
      if k == 1 {
        v := (bitmap[q] >> 2) & 0x03;
      }
      if k == 2 {
        v := (bitmap[q] >> 4) & 0x03;
      }
      if k == 3 {
        v := (bitmap[q] >> 6) & 0x03;
      }
      if 4 * q + k < nFrames {
        assert (4 * q + k) / 4 == q && (4 * q + k) % 4 == k;
        assert Encoded(bitmap[..], states, 4 * q + k);
      }
    }

    /** setState: stores state `x` as field `k` of bitmap byte `q`, the state of frame 4q + k. */
    method SetState(q: nat, k: nat, x: FrameState)
      requires Wf() && k < 4 && 4 * q + k < nFrames
      modifies this`states, bitmap
      ensures Wf() && states == old(states)[4 * q + k := x]
    {
      assert q < bitmap.Length;
      ghost var b0, s0 := bitmap[..], states;
      bitmap[q] := SetField(bitmap[q], k, Code(x));
      states := states[4 * q + k := x];
      forall i | 0 <= i < nFrames
        ensures Encoded(bitmap[..], states, i)
      {
        assert Encoded(b0, s0, i);
        if i / 4 == q && i % 4 != k {
          assert i != 4 * q + k;
        }
      }
    }

    /**
     * isFree: whether frame index `j` of the pool is free. An index outside
     * the pool reads as not free.
     */
    method IsFree(j: int) returns (r: bool)
      requires Wf()
      ensures r <==> FreeAt(states, j)
    {
      if j < 0 || j >= nFrames {
        return false;
      }
      var v := GetState(j / 4, j % 4);
      r := v & FREE == FREE;
    }

    /** allocate: marks free frame `i` allocated, as a head if `head` holds. */
    method Allocate(i: nat, head: bool)
      requires Wf() && i < nFrames && states[i] == Free
      modifies this`states, bitmap
      ensures Wf() && states == old(states)[i := if head then Head else Allocated]
    {
      SetState(i / 4, i % 4, Allocated);
      if head {
        SetState(i / 4, i % 4, Head);
      }
    }

    /** release: marks allocated frame `i` free. */
    method Release(i: nat)
      requires Wf() && i < nFrames && states[i] != Free
      modifies this`states, bitmap
      ensures Wf() && states == old(states)[i := Free]
    {
      SetState(i / 4, i % 4, Free);
    }

    /**
     * get_frames, as written: finds the first free window of n + 1 frames,
     * marks it as one sequence, lowers the free counter by n and returns the
     * sequence's first frame number; returns 0 when there is no such window.
     */
    method GetFrames(n: nat) returns (frame: nat)
      requires Valid() && nFreeFrames > 0
      modifies this`states, this`nFreeFrames, bitmap
      ensures Valid()
      ensures match FirstFit(old(states), n + 1)
        case Some(i) =>
          frame == baseFrameNo + i && states == MarkRun(old(states), i, n + 1) &&
          nFreeFrames == old(nFreeFrames) - n
        case None =>
          frame == 0 && states == old(states) && nFreeFrames == old(nFreeFrames)
      ensures old(Accurate()) && FirstFit(old(states), n + 1).Some? ==>
        nFreeFrames == FreeCount(states) + 1
    {
      var found, i := FindWindow(n);
      if found {
        ghost var s := states;
        MarkWindow(i, n + 1);
        MarkRunCount(s, i, n + 1);
        MarkRunKeepsRuns(s, i, n + 1);
        nFreeFrames := nFreeFrames - n;
        frame := baseFrameNo + i;
      } else {
        frame := 0;
      }
    }

    /**
     * The scan of get_frames: from each free frame it checks the n + 1 frames
     * from there on, and after a frame that is not free it goes on past it.
     */
    method FindWindow(n: nat) returns (found: bool, i: nat)
      requires Wf()
      ensures found <==> FirstFit(states, n + 1).Some?
      ensures found ==> FirstFit(states, n + 1) == Some(i)
    {
      ghost var w := n + 1;
      i := 0;
      var j: nat := 0;
      var freeFramesFlag := true;
      found := false;
      while i < nFrames
        invariant freeFramesFlag && !found
        invariant forall i' :: 0 <= i' < i ==> !WindowFree(states, i', w)
        decreases nFrames - i
      {
        var f := IsFree(i);
        if f {
          j := i;
          while j <= i + n
            invariant i <= j <= i + n + 1 && j <= |states| && freeFramesFlag
            invariant forall k :: i <= k < j ==> states[k] == Free
          {
            var g := IsFree(j);
            if !g {
              freeFramesFlag := false;
              break;
            }
            j := j + 1;
          }
          if freeFramesFlag {
            assert WindowFree(states, i, w);
            found := true;
            return;
          }
          assert !FreeAt(states, j) && i <= j <= i + n;
          assert forall i' :: i <= i' <= j ==> !WindowFree(states, i', w);
          freeFramesFlag := true;
          i := j + 1;
        } else {
          i := i + 1;
        }
      }
    }

    /** The update of get_frames: frames `i` .. `i + len - 1` become one sequence headed at `i`. */
    method MarkWindow(i: nat, len: nat)
      requires Wf() && WindowFree(states, i, len)
      modifies this`states, bitmap
      ensures Wf() && states == MarkRun(old(states), i, len)
    {
      ghost var s := states;
      for j := i to i + len
        invariant Wf()
        invariant forall k :: 0 <= k < nFrames ==>
          states[k] == if i <= k < j then (if k == i then Head else Allocated) else s[k]
      {
        Allocate(j, j == i);
      }
      assert states == MarkRun(s, i, len);
    }

    /**
     * mark_inaccessible: marks the `n` free frames from frame number `b` on
     * as one allocated sequence.
     */
    method MarkInaccessible(b: nat, n: nat)
      requires Valid()
      requires baseFrameNo <= b < baseFrameNo + nFrames
      requires baseFrameNo <= b + n < baseFrameNo + nFrames
      requires forall k :: b - baseFrameNo <= k < b - baseFrameNo + n ==> states[k] == Free
      modifies this`states, this`nFreeFrames, bitmap
      ensures Valid()
      ensures states == MarkRun(old(states), b - baseFrameNo, n)
      ensures nFreeFrames == old(nFreeFrames) - n
      ensures old(Accurate()) ==> Accurate()
    {
      ghost var s := states;
      var first := b - baseFrameNo;
      assert WindowFree(s, first, n);
      MarkRunCount(s, first, n);
      for i := b to b + n
        modifies this`states, this`nFreeFrames, bitmap
        invariant Wf() && nFreeFrames == old(nFreeFrames) - (i - b)
        invariant forall k :: 0 <= k < nFrames ==>
          states[k] == if first <= k < i - baseFrameNo then (if k == first then Head else Allocated) else s[k]
      {
        if i == b {
          Allocate(i - baseFrameNo, true);
        } else {
          Allocate(i - baseFrameNo, false);
        }
        nFreeFrames := nFreeFrames - 1;
      }
      assert states == MarkRun(s, first, n);
      MarkRunKeepsRuns(s, first, n);
    }

    /**
     * release_frames_from_pool, as written: frees frames one by one from frame
     * number `f` on until it meets a free frame (or the end of the pool).
     */
    method ReleaseFramesFromPool(f: nat)
      requires Valid()
      modifies this`states, this`nFreeFrames, bitmap
      ensures Valid()
      ensures states == ReleaseRun(old(states), f - baseFrameNo)
      ensures nFreeFrames == old(nFreeFrames) + RunLength(old(states), f - baseFrameNo)
      ensures old(Accurate()) ==> Accurate()
    {
      ghost var s := states;
      FreeRun(f - baseFrameNo);
      ReleaseRunCount(s, f - baseFrameNo);
      ReleaseRunKeepsRuns(s, f - baseFrameNo);
    }

    /** The loop of release_frames_from_pool: frees frames from index `st` on until one is free. */
    method FreeRun(st: int)
      requires Wf()
      modifies this`states, this`nFreeFrames, bitmap
      ensures Wf()
      ensures states == ReleaseRun(old(states), st)
      ensures nFreeFrames == old(nFreeFrames) + RunLength(old(states), st)
    {
      ghost var s := states;
      ghost var len := RunLength(s, st);
      var i: int := st;
      var free := IsFree(i);
      while 0 <= i < nFrames && !free
        invariant Wf() && st <= i <= st + len
        invariant i > st ==> 0 <= st
        invariant forall k :: 0 <= k < nFrames ==> states[k] == if st <= k < i then Free else s[k]
        invariant free <==> FreeAt(states, i)
        invariant nFreeFrames == old(nFreeFrames) + (i - st)
        decreases nFrames - i
      {
        assert i < st + len;
        Release(i);
        nFreeFrames := nFreeFrames + 1;
        i := i + 1;
        free := IsFree(i);
      }
      assert i == st + len;
      assert states == FreeRange(s, st, st + len);
    }
  }

  /** The list of all pools, in the order they were created. */
  class PoolRegistry {
    /** The first pool of the list. */
    var head: ContFramePool?
    /** The pools of the list, in list order. */
    ghost var pools: seq<ContFramePool>

    /** `head` and the `next` links spell out `pools`; pools and bitmaps are distinct. */
    ghost predicate Linked()
      reads this, pools
    {
      (pools == [] <==> head == null) &&
      (pools != [] ==> head == pools[0] && pools[|pools| - 1].next == null) &&
      (forall i :: 0 <= i < |pools| - 1 ==> pools[i].next == pools[i + 1]) &&
      (forall i, j :: 0 <= i < j < |pools| ==> pools[i] != pools[j] && pools[i].bitmap != pools[j].bitmap)
    }

    /** Every pool of the list keeps its invariant. */
    ghost predicate PoolsValid()
      reads this, pools, set p | p in pools :: p.bitmap
    {
      forall p :: p in pools ==> p.Valid()
    }

    /** An empty list. */
    constructor ()
      ensures Linked() && pools == []
    {
      head := null;
      pools := [];
    }

    /** Appends a new pool at the tail of the list. */
    method Append(p: ContFramePool)
      requires Linked() && p !in pools && p.next == null
      requires forall q :: q in pools ==> q.bitmap != p.bitmap
      modifies this, pools
      ensures Linked() && pools == old(pools) + [p] && p.next == null
      ensures forall q :: q in old(pools) ==>
        q.states == old(q.states) && q.nFreeFrames == old(q.nFreeFrames)
    {
      if head == null {
        head := p;
      } else {
        var temp := head;
        ghost var t := 0;
        while temp.next != null
          invariant 0 <= t < |pools| && temp == pools[t]
          invariant t < |pools| - 1 ==> temp.next == pools[t + 1]
          invariant t == |pools| - 1 ==> temp.next == null
          decreases |pools| - t
        {
          temp := temp.next;
          t := t + 1;
        }
        temp.next := p;
      }
      pools := pools + [p];
    }

    /**
     * The index of the pool release_frames hands frame `f` to: the first pool
     * before the last that contains `f`, else the last pool.
     */
    ghost function OwnerFrom(f: nat, i: nat): (r: nat)
      reads this`pools
      requires i < |pools|
      ensures i <= r < |pools|
      ensures r < |pools| - 1 ==> pools[r].Contains(f)
      ensures forall k :: i <= k < r ==> !pools[k].Contains(f)
      decreases |pools| - i
    {
      if i == |pools| - 1 || pools[i].Contains(f) then i else OwnerFrom(f, i + 1)
    }

    /** The owner is the first pool that contains `f`, or the last pool when none before it does. */
    lemma {:induction false} OwnerIs(f: nat, i: nat, t: nat)
      requires i <= t < |pools|
      requires forall k :: i <= k < t ==> !pools[k].Contains(f)
      requires t == |pools| - 1 || pools[t].Contains(f)
      ensures OwnerFrom(f, i) == t
      decreases t - i
    {
      if i < t {
        OwnerIs(f, i + 1, t);
      }
    }

    /** When some pool contains `f`, the pool found contains it. */
    lemma OwnerContains(f: nat)
      requires exists k :: 0 <= k < |pools| && pools[k].Contains(f)
      ensures pools[OwnerFrom(f, 0)].Contains(f)
    {
    }

    /**
     * release_frames: finds the pool of frame `f` by walking the list and
     * releases from that pool, as written.
     */
    method ReleaseFrames(f: nat) returns (ghost owner: nat)
      requires Linked() && PoolsValid() && pools != []
      modifies pools, set p | p in pools :: p.bitmap
      ensures Linked() && PoolsValid()
      ensures owner == OwnerFrom(f, 0)
      ensures pools[owner].states == ReleaseRun(old(pools[owner].states), f - pools[owner].baseFrameNo)
      ensures pools[owner].nFreeFrames ==
        old(pools[owner].nFreeFrames) + RunLength(old(pools[owner].states), f - pools[owner].baseFrameNo)
      ensures old(pools[owner].Accurate()) ==> pools[owner].Accurate()
      ensures forall k :: 0 <= k < |pools| && k != owner ==>
        pools[k].states == old(pools[k].states) && pools[k].nFreeFrames == old(pools[k].nFreeFrames)
    {
      var p;
      p, owner := FindPool(f);
      p.ReleaseFramesFromPool(f);
      forall q | q in pools
        ensures q.Valid()
      {
        var k :| 0 <= k < |pools| && pools[k] == q;
        if k != owner {
          assert k < owner || owner < k;
          assert q != p && q.bitmap != p.bitmap;
        }
      }
      forall k | 0 <= k < |pools| && k != owner
        ensures pools[k] != p
      {
        assert k < owner || owner < k;
      }
    }

    /**
     * The walk of release_frames: stops at the first pool that contains `f`,
     * or at the last pool.
     */
    method FindPool(f: nat) returns (p: ContFramePool, ghost t: nat)
      requires Linked() && pools != []
      ensures t == OwnerFrom(f, 0) && p == pools[t]
    {
      p := head;
      t := 0;
      while p.next != null
        invariant 0 <= t < |pools| && p == pools[t]
        invariant t < |pools| - 1 ==> p.next == pools[t + 1]
        invariant t == |pools| - 1 ==> p.next == null
        invariant forall k :: 0 <= k < t ==> !pools[k].Contains(f)
        decreases |pools| - t
      {
        if p.baseFrameNo <= f < p.baseFrameNo + p.nFrames {
          break;
        }
        p := p.next;
        t := t + 1;
      }
      OwnerIs(f, 0, t);
    }
  }
}
