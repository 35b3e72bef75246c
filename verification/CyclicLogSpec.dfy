/**
 The cyclic log as a value: the file, the write position and the chain of region locks.
 Positions are byte offsets, computed with the source's own formulas. A file is the sequence
 of the records in its slots, so its size in bytes is the number of slots times the record size.
 */
module CyclicLogSpec {
  import opened Ring
  import opened Wrappers

  // ---------------------------------------------------------------- lock regions

  /** The bytes a lock protects. When `start >= end` the region wraps around the end of the file. */
  datatype Region = Region(start: int, end: int)

  predicate Wraps(g: Region) {
    g.start >= g.end
  }

  predicate Holds(g: Region, x: int) {
    if Wraps(g) then x >= g.start || x < g.end else g.start <= x < g.end
  }

  /** Every byte below `capacity` that `inner` protects is protected by `g`. */
  ghost predicate Covers(g: Region, inner: Region, capacity: int) {
    forall x :: 0 <= x < capacity && Holds(inner, x) ==> Holds(g, x)
  }

  /** The smallest-start merge of the bounds kept so far with one more lock. */
  function UpdateBounds(bounds: Region, lock: Region): Region {
    var start := if lock.start < bounds.start then lock.start else bounds.start;
    var end :=
      if bounds.start < bounds.end then
        if lock.start >= lock.end then lock.end
        else if lock.end > bounds.end then lock.end else bounds.end
      else if lock.start >= lock.end && lock.end > bounds.end then lock.end
      else bounds.end;
    Region(start, end)
  }

  /** Bounds of a whole chain, oldest lock first. */
  function EvalBounds(locks: seq<Region>): Region
    requires |locks| > 0
  {
    if |locks| == 1 then locks[0]
    else UpdateBounds(EvalBounds(locks[..|locks| - 1]), locks[|locks| - 1])
  }

  /** Two linear regions are always covered by their merge. If one of them wraps, the merge covers both
      exactly when neither region starts before the end of a wrapping other one. */
  lemma MergeExact(a: Region, b: Region, capacity: int)
    requires 0 <= a.start < capacity && 0 <= b.start < capacity
    ensures !Wraps(a) && !Wraps(b) ==>
              Covers(UpdateBounds(a, b), a, capacity) && Covers(UpdateBounds(a, b), b, capacity)
    ensures Wraps(a) || Wraps(b) ==>
              ((Covers(UpdateBounds(a, b), a, capacity) && Covers(UpdateBounds(a, b), b, capacity))
               <==> (Wraps(a) ==> b.start >= a.end) && (Wraps(b) ==> a.start >= b.end))
  {
    var m := UpdateBounds(a, b);
    if (Wraps(a) || Wraps(b)) && !Wraps(m) {
      // The larger start among the wrapping regions lies beyond the linear merge.
      assert Wraps(a) ==> Holds(a, a.start);
      assert Wraps(b) ==> Holds(b, b.start);
      assert (Wraps(a) && !Holds(m, a.start)) || (Wraps(b) && !Holds(m, b.start));
    }
  }

  /** So it fails for a lock that wraps and one at the start of the file. */
  lemma MergeLoses()
    ensures var a, b := Region(8, 4), Region(0, 4);
            && UpdateBounds(a, b) == Region(0, 4)
            && Holds(a, 8) && !Holds(UpdateBounds(a, b), 8) && !Covers(UpdateBounds(a, b), a, 12)
  {
    var a, b := Region(8, 4), Region(0, 4);
    assert Holds(a, 8) && !Holds(UpdateBounds(a, b), 8);
  }

  /** What the merge protects, byte by byte. Of two linear regions it is everything from the first start to
      the last end. If one of them wraps, the bytes from the first start to the end of the wrapping one,
      around the end of the file if that start is not before that end; if both wrap, to the later of the
      two ends. */
  lemma MergeHolds(a: Region, b: Region, x: int)
    ensures var from := Min(a.start, b.start);
            var to := if Wraps(a) == Wraps(b) then Max(a.end, b.end) else if Wraps(a) then a.end else b.end;
            Holds(UpdateBounds(a, b), x) <==> if from >= to then x >= from || x < to else from <= x < to
    ensures !Wraps(a) && !Wraps(b) ==>
              (Holds(UpdateBounds(a, b), x) <==> Min(a.start, b.start) <= x < Max(a.end, b.end))
  {
  }

  /** So the merge of two regions of which one wraps protects, if it covers both, nothing but what lies
      behind the first start or before the end of a wrapping one. */
  lemma MergeIsHull(a: Region, b: Region, x: int)
    requires Wraps(a) || Wraps(b)
    requires (Wraps(a) ==> b.start >= a.end) && (Wraps(b) ==> a.start >= b.end)
    ensures Holds(UpdateBounds(a, b), x)
       <==> x >= a.start || x >= b.start || (Wraps(a) && x < a.end) || (Wraps(b) && x < b.end)
  {
  }

  /** The bounds of a chain of linear locks reach from the first start to the last end, and no further. */
  lemma {:induction false} LinearChainBounds(locks: seq<Region>)
    requires |locks| > 0 && forall i :: 0 <= i < |locks| ==> !Wraps(locks[i])
    ensures var g := EvalBounds(locks);
            && !Wraps(g)
            && (forall i :: 0 <= i < |locks| ==> g.start <= locks[i].start && locks[i].end <= g.end)
            && (exists i :: 0 <= i < |locks| && g.start == locks[i].start)
            && (exists i :: 0 <= i < |locks| && g.end == locks[i].end)
  {
    var n := |locks| - 1;
    assert locks[n] in locks;
    if n > 0 {
      var older := locks[..n];
      LinearChainBounds(older);
      var i :| 0 <= i < n && EvalBounds(older).start == older[i].start;
      var j :| 0 <= j < n && EvalBounds(older).end == older[j].end;
      assert older[i] == locks[i] && older[j] == locks[j];
      assert forall k :: 0 <= k < n ==> locks[k] == older[k];
    }
  }

  /** So they protect the bytes between the locks of the chain, besides those of the locks, and no others. */
  lemma LinearChainHolds(locks: seq<Region>, x: int)
    requires |locks| > 0 && forall i :: 0 <= i < |locks| ==> !Wraps(locks[i])
    ensures Holds(EvalBounds(locks), x)
       <==> (exists i :: 0 <= i < |locks| && locks[i].start <= x) && (exists i :: 0 <= i < |locks| && x < locks[i].end)
  {
    LinearChainBounds(locks);
  }

  /** The bounds of a chain of linear locks are linear and cover each of them. */
  lemma {:induction false} LinearChainCovered(locks: seq<Region>, capacity: int)
    requires |locks| > 0
    requires forall i :: 0 <= i < |locks| ==> 0 <= locks[i].start < capacity && !Wraps(locks[i])
    ensures 0 <= EvalBounds(locks).start < capacity && !Wraps(EvalBounds(locks))
    ensures forall i :: 0 <= i < |locks| ==> Covers(EvalBounds(locks), locks[i], capacity)
  {
    if |locks| > 1 {
      var older, newest := locks[..|locks| - 1], locks[|locks| - 1];
      LinearChainCovered(older, capacity);
      MergeExact(EvalBounds(older), newest, capacity);
      forall i | 0 <= i < |locks|
        ensures Covers(EvalBounds(locks), locks[i], capacity)
      {
        if i < |older| {
          assert Covers(EvalBounds(older), older[i], capacity);
        }
      }
    }
  }

  // ---------------------------------------------------------------- the log

  datatype LogState<T> = LogState(
    recordSize: int,
    maxRecords: int,
    file: seq<T>,
    position: int,
    locks: seq<Region>,  // the chain, newest lock last
    bounds: Region       // lockStart and lockEnd, meaningful while the chain is not empty
  )

  function MaxSize<T>(s: LogState<T>): int {
    s.maxRecords * s.recordSize
  }

  function Size<T>(s: LogState<T>): int {
    |s.file| * s.recordSize
  }

  /** The comparison the writer repeats until it is true. */
  predicate GuardPasses(bounds: Region, position: int, recordSize: int) {
    if bounds.start >= bounds.end then
      bounds.start >= position + recordSize && bounds.end <= position
    else
      bounds.start >= position + recordSize || bounds.end <= position
  }

  predicate CanWrite<T>(s: LogState<T>) {
    s.locks == [] || GuardPasses(s.bounds, s.position, s.recordSize)
  }

  /** The guard is true exactly when no byte of the record about to be written is protected. */
  lemma GuardIsDisjointness(bounds: Region, position: int, recordSize: int)
    requires recordSize > 0
    ensures GuardPasses(bounds, position, recordSize)
       <==> forall x :: position <= x < position + recordSize ==> !Holds(bounds, x)
  {
    if !GuardPasses(bounds, position, recordSize) {
      var last := position + recordSize - 1;
      if Wraps(bounds) {
        assert Holds(bounds, position) || Holds(bounds, last);
      } else {
        assert Holds(bounds, if bounds.start > position then bounds.start else position);
      }
    }
  }

  function Put<T>(file: seq<T>, slot: int, x: T): seq<T>
    requires 0 <= slot <= |file|
  {
    if slot < |file| then file[slot := x] else file + [x]
  }

  predicate WellPlaced<T>(s: LogState<T>) {
    s.recordSize > 0 && 0 <= s.position / s.recordSize <= |s.file|
  }

  /** Writing a record at the channel position and moving the position on, back to 0 at the end. */
  function WriteRecord<T>(s: LogState<T>, x: T): LogState<T>
    requires WellPlaced(s)
  {
    s.(file := Put(s.file, s.position / s.recordSize, x),
       position := NextPosition(s.position, s.recordSize, MaxSize(s)))
  }

  function NextPosition(position: int, recordSize: int, maxSize: int): int {
    if position + recordSize >= maxSize then 0 else position + recordSize
  }

  /** The region `lock()` takes: everything recorded, as far as the log can tell. */
  function WholeRegion<T>(s: LogState<T>): Region {
    if s.position + s.recordSize >= Size(s) then Region(0, s.position)
    else Region(s.position, s.position)
  }

  function AddLock<T>(s: LogState<T>, g: Region): LogState<T> {
    s.(locks := s.locks + [g],
       bounds := if s.locks == [] then g else UpdateBounds(s.bounds, g))
  }

  /** What the log still knows of its chain after lock `i` was removed. Removing the newest lock
      empties the chain: its successor, of which there is none, becomes the new head. */
  function Without<X>(chain: seq<X>, i: int): seq<X>
    requires 0 <= i < |chain|
  {
    if i == |chain| - 1 then [] else chain[..i] + chain[i + 1..]
  }

  function RemoveLock<T>(s: LogState<T>, i: int): LogState<T>
    requires 0 <= i < |s.locks|
  {
    Reevaluate(s.(locks := Without(s.locks, i)))
  }

  function Reevaluate<T>(s: LogState<T>): LogState<T> {
    if s.locks == [] then s else s.(bounds := EvalBounds(s.locks))
  }

  /** The records left in the file when it is opened with a stored position. */
  function FileReopened<T>(file: seq<T>, storedPosition: Option<int>, recordSize: int, maxRecords: int): seq<T> {
    if storedPosition.None? then []
    else if storedPosition.value >= maxRecords * recordSize && 0 <= maxRecords < |file| then file[..maxRecords]
    else file
  }

  // ---------------------------------------------------------------- the log and its history

  function Min(a: int, b: int): int {
    if a < b then a else b
  }

  function Max(a: int, b: int): int {
    if a > b then a else b
  }

  /** `s` is a log into which exactly the records of `history` were written, in that order. */
  ghost predicate Represents<T>(s: LogState<T>, history: seq<T>) {
    && s.recordSize > 0 && s.maxRecords > 0
    && s.position == Offset(s.maxRecords, s.recordSize, |history|)
    && Keeps(s.file, s.maxRecords, history)
  }

  /** Each of the newest `n` records of the history is in its slot, and the file has no other slots. */
  ghost predicate Keeps<T>(file: seq<T>, n: int, history: seq<T>)
    requires n > 0
  {
    && |file| == Min(|history|, n)
    && forall i :: Max(0, |history| - n) <= i < |history|
         ==> 0 <= i % n < |file| && file[i % n] == history[i]
  }

  lemma PositionInFile<T>(s: LogState<T>, history: seq<T>)
    requires Represents(s, history)
    ensures WellPlaced(s) && s.position / s.recordSize == |history| % s.maxRecords
    ensures |history| % s.maxRecords < |s.file| || |history| % s.maxRecords == |s.file| == |history|
  {
    OffsetNext(s.maxRecords, s.recordSize, |history|);
    if |history| < s.maxRecords {
      SmallMod(s.maxRecords, |history|);
    }
  }

  /** Different records of the last full turn live in different slots. */
  lemma SlotFree(n: int, i: int, written: int)
    requires n > 0 && 0 <= i < written < i + n
    ensures i % n != written % n && 0 <= i % n < n && 0 <= written % n < n
  {
    ModShift(n, i, written - i);
  }

  lemma PutKeeps<T>(file: seq<T>, n: int, history: seq<T>, x: T)
    requires n > 0 && Keeps(file, n, history)
    ensures 0 <= |history| % n <= |file|
    ensures Keeps(Put(file, |history| % n, x), n, history + [x])
  {
    var k := |history|;
    if k < n {
      SmallMod(n, k);
    }
    var t := Put(file, k % n, x);
    forall i | Max(0, k + 1 - n) <= i < k + 1
      ensures 0 <= i % n < |t| && t[i % n] == (history + [x])[i]
    {
      if i < k {
        SlotFree(n, i, k);
      }
    }
  }

  /** A write appends to the history and overwrites nothing but the record `maxRecords` back. */
  lemma WriteAppends<T>(s: LogState<T>, history: seq<T>, x: T)
    requires Represents(s, history)
    ensures WellPlaced(s) && Represents(WriteRecord(s, x), history + [x])
  {
    OffsetNext(s.maxRecords, s.recordSize, |history|);
    PutKeeps(s.file, s.maxRecords, history, x);
  }

  /** How many of the newest records `lock()` protects. */
  function WindowSize(maxRecords: int, written: int): int
    requires maxRecords > 0 && written >= 0
  {
    if written < maxRecords then written
    else if maxRecords > 1 && written % maxRecords == maxRecords - 1 then maxRecords - 1
    else maxRecords
  }

  /** The region taken by `lock()` starts at the oldest record of the window and ends at the
      write position; so the window is always the newest `WindowSize` records. */
  lemma WholeRegionIsWindow<T>(s: LogState<T>, history: seq<T>)
    requires Represents(s, history)
    ensures var w := WindowSize(s.maxRecords, |history|);
            && 0 <= w <= |history| && w <= s.maxRecords && (w == 0 <==> history == [])
            && WholeRegion(s) == Region(Offset(s.maxRecords, s.recordSize, |history| - w), s.position)
  {
    var n, size, k := s.maxRecords, s.recordSize, |history|;
    var w := WindowSize(n, k);
    Scale(size, k % n + 1, |s.file|);
    Scale(size, |s.file|, k % n + 1);
    ModShift(n, k - w, w);
    if k < n {
      SmallMod(n, k);
    }
  }

  /** So it happens that a record is left out: in a log of two slots and three records. */
  lemma WindowLosesOldest()
    ensures var s := LogState(4, 2, [30, 20], 4, [], Region(0, 0));
            && Represents(s, [10, 20, 30]) && WindowSize(2, 3) == 1
            && WholeRegion(s) == Region(0, 4) && !Holds(WholeRegion(s), 4)
  {
    var s, h := LogState(4, 2, [30, 20], 4, [], Region(0, 0)), [10, 20, 30];
    forall i | Max(0, |h| - 2) <= i < |h|
      ensures 0 <= i % 2 < |s.file| && s.file[i % 2] == h[i]
    {
      assert i == 1 || i == 2;
    }
  }

  /** The two-case byte comparison means: fewer than a full turn of records was written since
      the oldest protected one. The lock was taken when `taken` records had been written. */
  lemma GuardIsLogical(n: int, size: int, oldest: int, taken: int, written: int)
    requires n > 0 && size > 0
    requires 0 <= oldest < taken <= written <= oldest + n
    ensures GuardPasses(Region(Offset(n, size, oldest), Offset(n, size, taken)),
                        Offset(n, size, written), size)
       <==> written < oldest + n
  {
    ModShift(n, oldest, taken - oldest);
    ModShift(n, oldest, written - oldest);
    Scale(size, oldest % n, written % n + 1);
    Scale(size, written % n, oldest % n);
    Scale(size, written % n, taken % n);
    Scale(size, oldest % n, taken % n);
  }
}
