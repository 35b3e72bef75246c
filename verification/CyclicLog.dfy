/**
 The log and its chain of region locks as objects. Every method states the new state through
 the functions of CyclicLogSpec; `wait()` is modelled by a method that does nothing while the
 writer's guard is false.
 */
module CyclicLogs {
  import opened Ring
  import opened Wrappers
  import Spec = CyclicLogSpec

  /** Neighbours in the chain know each other; the first has no predecessor, the last no successor. */
  ghost predicate Linked(chain: seq<CyclicLogLock>)
    reads chain
  {
    && (forall i, j :: 0 <= i < j < |chain| ==> chain[i] != chain[j])
    && (forall i {:trigger chain[i].prev} :: 0 <= i < |chain| ==>
          chain[i].prev == if i == 0 then null else chain[i - 1])
    && (forall i {:trigger chain[i].next} :: 0 <= i < |chain| ==>
          chain[i].next == if i == |chain| - 1 then null else chain[i + 1])
  }

  function Regions(chain: seq<CyclicLogLock>): (regions: seq<Spec.Region>)
    ensures |regions| == |chain|
    ensures forall i :: 0 <= i < |chain| ==> regions[i] == chain[i].Bounds()
  {
    seq(|chain|, i requires 0 <= i < |chain| => chain[i].Bounds())
  }

  class CyclicLogLock {
    var prev: CyclicLogLock?
    var next: CyclicLogLock?
    const start: int
    const end: int

    function Bounds(): Spec.Region {
      Spec.Region(start, end)
    }

    constructor (prev: CyclicLogLock?, start: int, end: int)
      modifies prev
      ensures this.prev == prev && next == null && Bounds() == Spec.Region(start, end)
      ensures prev != null ==> prev.next == this && prev.prev == old(prev.prev)
    {
      this.prev := prev;
      this.next := null;
      this.start := start;
      this.end := end;
      new;
      if prev != null {
        prev.next := this;
      }
    }

    method EvalBounds(ghost chain: seq<CyclicLogLock>) returns (bounds: array<int>)
      requires |chain| > 0 && chain[|chain| - 1] == this
      requires forall i {:trigger chain[i].prev} :: 0 <= i < |chain| ==>
                 chain[i].prev == if i == 0 then null else chain[i - 1]
      ensures fresh(bounds) && bounds.Length == 2
      ensures Spec.Region(bounds[0], bounds[1]) == Spec.EvalBounds(Regions(chain))
      decreases |chain|
    {
      ghost var older := chain[..|chain| - 1];
      assert chain[|chain| - 1].prev == prev;
      if prev == null {
        bounds := new int[] [start, end];
      } else {
        bounds := prev.EvalBounds(older);
        UpdateBounds(bounds);
        assert Regions(chain)[..|chain| - 1] == Regions(older);
      }
    }

    method UpdateBounds(bounds: array<int>)
      requires bounds.Length == 2
      modifies bounds
      ensures Spec.Region(bounds[0], bounds[1])
           == Spec.UpdateBounds(Spec.Region(old(bounds[0]), old(bounds[1])), Bounds())
    {
      var start, end := bounds[0], bounds[1];
      if this.start < start {
        bounds[0] := this.start;
      }
      if start < end {
        if this.start >= this.end {
          bounds[1] := this.end;
        } else if this.end > end {
          bounds[1] := this.end;
        }
      } else if this.start >= this.end {
        if this.end > end {
          bounds[1] := this.end;
        }
      }
    }

    method Remove(ghost chain: seq<CyclicLogLock>, ghost i: nat) returns (next: CyclicLogLock?)
      requires Linked(chain) && i < |chain| && chain[i] == this
      modifies chain
      ensures Linked(chain[..i] + chain[i + 1..])
      ensures next == if i == |chain| - 1 then null else chain[i + 1]
      ensures prev == null && this.next == null
    {
      next := this.next;
      if prev != null {
        prev.next := next;
      }
      if next != null {
        next.prev := prev;
      }
      prev := null;
      this.next := null;
      ghost var rest := chain[..i] + chain[i + 1..];
      assert forall j :: 0 <= j < |rest| ==> rest[j] == chain[if j < i then j else j + 1];
      forall j | 0 <= j < |rest|
        ensures rest[j].prev == if j == 0 then null else rest[j - 1]
        ensures rest[j].next == if j == |rest| - 1 then null else rest[j + 1]
      {
        assert rest[j] == chain[j] || rest[j] == chain[j + 1];
      }
    }
  }

  class CyclicLog<T> {
    const recordSize: int
    const maxRecords: int
    var file: seq<T>
    var position: int
    var storedPosition: Option<int>  // the position file; None while it is empty
    var lock: CyclicLogLock?         // the newest lock
    var lockStart: int
    var lockEnd: int
    ghost var chain: seq<CyclicLogLock>
    ghost var history: seq<T>

    ghost predicate Valid()
      reads this, chain
    {
      && recordSize > 0 && maxRecords > 0
      && 0 <= position < maxRecords * recordSize && position % recordSize == 0
      && position / recordSize <= |file| <= maxRecords
      && Linked(chain)
      && lock == if chain == [] then null else chain[|chain| - 1]
    }

    ghost function View(): Spec.LogState<T>
      reads this
    {
      Spec.LogState(recordSize, maxRecords, file, position, Regions(chain),
                    Spec.Region(lockStart, lockEnd))
    }

    /** Opening the files. An incomplete position file empties the log. A position beyond the maximum
        cuts the file to its size and is not used, nor is one beyond the end of the file. */
    constructor (recordSize: int, maxRecords: int, file: seq<T>, storedPosition: Option<int>,
                 ghost history: seq<T>)
      requires recordSize > 0 && maxRecords > 0
      requires storedPosition.Some? ==> 0 <= storedPosition.value
      ensures |this.file| <= maxRecords && position % recordSize == 0 ==> Valid()
      ensures chain == [] && lock == null && this.history == history
      ensures this.recordSize == recordSize && this.maxRecords == maxRecords
      ensures this.storedPosition == storedPosition
      ensures this.file == Spec.FileReopened(file, storedPosition, recordSize, maxRecords)
      ensures position == if storedPosition.Some? && storedPosition.value < maxRecords * recordSize
                             && storedPosition.value <= |file| * recordSize
                          then storedPosition.value else 0
    {
      this.recordSize, this.maxRecords := recordSize, maxRecords;
      this.file, this.position, this.storedPosition := file, 0, storedPosition;
      this.lock, this.lockStart, this.lockEnd := null, 0, 0;
      this.chain, this.history := [], history;
      new;
      if storedPosition.None? {
        this.file := [];
        return;
      }
      var logPosition := storedPosition.value;
      if logPosition >= maxRecords * recordSize {
        if |file| > maxRecords {
          this.file := file[..maxRecords];
        }
        return;
      }
      if logPosition <= |file| * recordSize {
        Scale(recordSize, |file|, logPosition / recordSize);
        position := logPosition;
      }
    }

    /** One attempt of the writer; it waits while its guard is false. */
    method TryWrite(record: T) returns (written: bool)
      requires Valid()
      modifies this`file, this`position, this`storedPosition, this`history
      ensures Valid() && written == old(Spec.CanWrite(View()))
      ensures written ==> Spec.WellPlaced(old(View())) && View() == Spec.WriteRecord(old(View()), record)
                          && history == old(history) + [record] && storedPosition == Some(position)
      ensures !written ==> View() == old(View()) && history == old(history)
                           && storedPosition == old(storedPosition)
    {
      hide Linked, Regions;
      if lock != null {
        if lockStart >= lockEnd {
          if !(lockStart >= position + recordSize && lockEnd <= position) {
            return false;
          }
        } else if !(lockStart >= position + recordSize || lockEnd <= position) {
          return false;
        }
      }
      var slot := position / recordSize;
      WriteFits(recordSize, maxRecords, position, |file|);
      if slot < |file| {
        file := file[slot := record];
      } else {
        file := file + [record];
      }
      position := position + recordSize;
      if position >= maxRecords * recordSize {
        position := 0;
      }
      storedPosition := Some(position);
      history := history + [record];
      written := true;
    }

    method LockAll() returns (taken: CyclicLogLock)
      requires Valid()
      modifies this`lock, this`lockStart, this`lockEnd, this`chain, lock
      ensures Valid() && fresh(taken) && chain == old(chain) + [taken]
      ensures taken.Bounds() == Spec.WholeRegion(old(View()))
      ensures View() == Spec.AddLock(old(View()), taken.Bounds())
    {
      if position + recordSize >= |file| * recordSize {
        taken := LockRegion(0, position);
      } else {
        taken := LockRegion(position, position);
      }
    }

    method LockRegion(start: int, end: int) returns (taken: CyclicLogLock)
      requires Valid()
      modifies this`lock, this`lockStart, this`lockEnd, this`chain, lock
      ensures Valid() && fresh(taken) && chain == old(chain) + [taken]
      ensures taken.Bounds() == Spec.Region(start, end)
      ensures View() == Spec.AddLock(old(View()), Spec.Region(start, end))
    {
      taken := Attach(start, end);
      if taken.prev == null {
        lockStart, lockEnd := start, end;
      } else {
        var bounds := new int[] [lockStart, lockEnd];
        taken.UpdateBounds(bounds);
        lockStart, lockEnd := bounds[0], bounds[1];
      }
    }

    method Attach(start: int, end: int) returns (taken: CyclicLogLock)
      requires Valid()
      modifies this`lock, this`chain, lock
      ensures Valid() && fresh(taken) && chain == old(chain) + [taken] && taken.prev == old(lock)
      ensures taken.Bounds() == Spec.Region(start, end)
      ensures Regions(chain) == old(Regions(chain)) + [Spec.Region(start, end)]
    {
      taken := new CyclicLogLock(lock, start, end);
      lock := taken;
      chain := chain + [taken];
    }

    /** Removing lock number `i` of the chain. */
    method Unlock(taken: CyclicLogLock, ghost i: nat)
      requires Valid() && i < |chain| && chain[i] == taken
      modifies this`lock, this`lockStart, this`lockEnd, this`chain, chain
      ensures Valid()
      ensures chain == Spec.Without(old(chain), i)
      ensures View() == Spec.RemoveLock(old(View()), i)
    {
      Detach(taken, i);
      Reevaluate();
    }

    method Detach(taken: CyclicLogLock, ghost i: nat)
      requires Valid() && i < |chain| && chain[i] == taken
      modifies this`lock, this`chain, chain
      ensures Valid()
      ensures chain == Spec.Without(old(chain), i)
      ensures Regions(chain) == Spec.Without(Regions(old(chain)), i)
    {
      hide Linked, Regions;
      ghost var before := chain;
      RegionsWithout(before, i);
      OnlyNewestIsLast(before, i);
      var next := taken.Remove(before, i);
      if lock == taken {
        lock := next;
      }
      chain := Spec.Without(before, i);
    }

    method Reevaluate()
      requires Valid()
      modifies this`lockStart, this`lockEnd
      ensures Valid() && View() == Spec.Reevaluate(old(View()))
    {
      if lock == null {
        return;
      }
      var bounds := lock.EvalBounds(chain);
      lockStart, lockEnd := bounds[0], bounds[1];
    }

    /** The same call for a lock the log has forgotten: lock number `i` of a list of its own. */
    method UnlockForgotten(taken: CyclicLogLock, ghost list: seq<CyclicLogLock>, ghost i: nat)
      requires Valid() && Linked(list) && i < |list| && list[i] == taken
      requires forall k :: 0 <= k < |chain| ==> chain[k] !in list
      modifies this`lockStart, this`lockEnd, list
      ensures Valid() && Linked(list[..i] + list[i + 1..])
      ensures chain == old(chain) && View() == Spec.Reevaluate(old(View()))
    {
      var next := taken.Remove(list, i);
      assert lock != taken && Linked(chain);
      Reevaluate();
    }
  }

  /** A position that is not the last slot's is followed by the next slot's. */
  lemma RegionsWithout(chain: seq<CyclicLogLock>, i: nat)
    requires i < |chain|
    ensures Regions(Spec.Without(chain, i)) == Spec.Without(Regions(chain), i)
  {
  }

  /** Where a write leaves the position, and the number of records in the file. */
  lemma WriteFits(recordSize: int, maxRecords: int, position: int, n: int)
    requires recordSize > 0 && maxRecords > 0 && position % recordSize == 0
    requires 0 <= position < maxRecords * recordSize && position / recordSize <= n <= maxRecords
    ensures var next := if position + recordSize >= maxRecords * recordSize then 0 else position + recordSize;
            var m := if position / recordSize < n then n else n + 1;
            && 0 <= next < maxRecords * recordSize && next % recordSize == 0
            && 0 <= position / recordSize && next / recordSize <= m <= maxRecords
  {
    SlotStep(recordSize, maxRecords, position);
  }

  lemma OnlyNewestIsLast(chain: seq<CyclicLogLock>, i: nat)
    requires Linked(chain) && i < |chain|
    ensures chain[i] == chain[|chain| - 1] <==> i == |chain| - 1
    ensures Linked([])
  {
  }

  lemma SlotStep(recordSize: int, maxRecords: int, position: int)
    requires recordSize > 0 && maxRecords > 0 && position >= 0 && position % recordSize == 0
    ensures (position + recordSize) % recordSize == 0
    ensures (position + recordSize) / recordSize == position / recordSize + 1
    ensures position / recordSize + 1 >= maxRecords <==> position + recordSize >= maxRecords * recordSize
    ensures position / recordSize < maxRecords <==> position < maxRecords * recordSize
  {
    var slot := position / recordSize;
    Scale(recordSize, slot + 1, maxRecords);
    Scale(recordSize, slot, maxRecords);
    DivUnique(recordSize, position + recordSize, slot + 1, 0);
  }
}
