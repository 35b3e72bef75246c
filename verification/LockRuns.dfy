/** Whole runs of taking and releasing locks. A lock is named by its place among those held. */
module LockRuns {
  import opened CyclicLogSpec

  datatype Step<T> = Lock(region: Region) | Unlock(k: nat) | Write(record: T)

  /** `held` are the locks taken and not yet released, oldest first. The log's own chain is a
      suffix of it; the locks before that suffix were forgotten by the log. */
  datatype Locking<T> = Locking(log: LogState<T>, held: seq<Region>)

  function Forgotten<T>(s: Locking<T>): int {
    |s.held| - |s.log.locks|
  }

  function Next<T>(s: Locking<T>, step: Step<T>): Locking<T> {
    match step
    case Lock(g) => Locking(AddLock(s.log, g), s.held + [g])
    case Unlock(k) =>
      if k >= |s.held| then s
      else Locking(if 0 <= Forgotten(s) <= k then RemoveLock(s.log, k - Forgotten(s))
                   else Reevaluate(s.log),
                   s.held[..k] + s.held[k + 1..])
    case Write(x) =>
      if WellPlaced(s.log) && CanWrite(s.log) then s.(log := WriteRecord(s.log, x)) else s
  }

  function Run<T>(s: Locking<T>, steps: seq<Step<T>>): Locking<T>
    decreases |steps|
  {
    if steps == [] then s else Run(Next(s, steps[0]), steps[1..])
  }

  /** The chain is a suffix of the held locks and the cached bounds are those of the chain. */
  ghost predicate Consistent<T>(s: Locking<T>) {
    && Forgotten(s) >= 0
    && s.log.locks == s.held[Forgotten(s)..]
    && (s.log.locks != [] ==> s.log.bounds == EvalBounds(s.log.locks))
  }

  /** The log knows every held lock. */
  ghost predicate AllKnown<T>(s: Locking<T>) {
    Consistent(s) && s.log.locks == s.held
  }

  lemma NextConsistent<T>(s: Locking<T>, step: Step<T>)
    requires Consistent(s)
    ensures Consistent(Next(s, step))
  {
    if step.Lock? {
      assert Next(s, step).log.locks[..|s.log.locks|] == s.log.locks;
    }
  }

  /** An unlock keeps every other held lock known exactly when the lock is not the newest one, or
      is the only one. */
  lemma UnlockExact<T>(s: Locking<T>, k: nat)
    requires AllKnown(s) && k < |s.held|
    ensures AllKnown(Next(s, Unlock(k))) <==> k < |s.held| - 1 || |s.held| == 1
  {
    NextConsistent(s, Unlock(k));
  }

  /** The unlocks that `UnlockExact` allows, at every point of a run. */
  predicate Orderly<T>(s: Locking<T>, steps: seq<Step<T>>)
    decreases |steps|
  {
    steps == [] ||
    (&& (steps[0].Unlock? && steps[0].k < |s.held| ==> steps[0].k < |s.held| - 1 || |s.held| == 1)
     && Orderly(Next(s, steps[0]), steps[1..]))
  }

  lemma {:induction false} RunConsistent<T>(s: Locking<T>, steps: seq<Step<T>>)
    requires Consistent(s)
    ensures Consistent(Run(s, steps))
    decreases |steps|
  {
    if steps != [] {
      NextConsistent(s, steps[0]);
      RunConsistent(Next(s, steps[0]), steps[1..]);
    }
  }

  /** After any run the cached bounds equal the recomputed bounds of the chain; after an orderly
      run that chain consists of exactly the held locks. */
  lemma {:induction false} CachedBoundsAgree<T>(s: Locking<T>, steps: seq<Step<T>>)
    requires AllKnown(s)
    ensures Run(s, steps).log.locks != [] ==>
              Run(s, steps).log.bounds == EvalBounds(Run(s, steps).log.locks)
    ensures Orderly(s, steps) ==> Run(s, steps).log.locks == Run(s, steps).held
    decreases |steps|
  {
    RunConsistent(s, steps);
    if steps != [] && Orderly(s, steps) {
      NextConsistent(s, steps[0]);
      if steps[0].Unlock? && steps[0].k < |s.held| {
        UnlockExact(s, steps[0].k);
      }
      CachedBoundsAgree(Next(s, steps[0]), steps[1..]);
    }
  }

  /** After an orderly run of linear locks, the writer is let in only where no held lock protects
      any byte of the record. */
  lemma LinearLocksAreSafe<T>(s: Locking<T>, steps: seq<Step<T>>, i: int, x: int)
    requires AllKnown(s) && Orderly(s, steps)
    requires var t := Run(s, steps);
             && t.log.recordSize > 0 && CanWrite(t.log) && 0 <= i < |t.held|
             && 0 <= t.log.position && t.log.position + t.log.recordSize <= MaxSize(t.log)
             && t.log.position <= x < t.log.position + t.log.recordSize
             && forall j :: 0 <= j < |t.held| ==> 0 <= t.held[j].start < MaxSize(t.log) && !Wraps(t.held[j])
    ensures !Holds(Run(s, steps).held[i], x)
  {
    var t := Run(s, steps);
    CachedBoundsAgree(s, steps);
    LinearChainCovered(t.held, MaxSize(t.log));
    GuardIsDisjointness(t.log.bounds, t.log.position, t.log.recordSize);
    assert Covers(EvalBounds(t.held), t.held[i], MaxSize(t.log));
  }

  /** After an orderly run of linear locks, the writer waits for nothing else: a record that ends at or
      before the start of every held lock, or begins at or after the end of every one, is let in, and no
      other is. */
  lemma LinearLocksLetIn<T>(s: Locking<T>, steps: seq<Step<T>>)
    requires AllKnown(s) && Orderly(s, steps)
    requires forall j :: 0 <= j < |Run(s, steps).held| ==> !Wraps(Run(s, steps).held[j])
    ensures var t := Run(s, steps);
            var next := t.log.position + t.log.recordSize;
            CanWrite(t.log) <==>
              || (forall j :: 0 <= j < |t.held| ==> next <= t.held[j].start)
              || (forall j :: 0 <= j < |t.held| ==> t.held[j].end <= t.log.position)
  {
    var t := Run(s, steps);
    CachedBoundsAgree(s, steps);
    if t.held != [] {
      LinearChainBounds(t.held);
    }
  }

  /** Releasing the newest of two locks lets the writer into bytes the older one still holds: after two
      writes into a new log of three slots, two locks of everything and a third write, the writer waits;
      after the release of the newest lock it does not. */
  lemma NewestReleaseForgets()
    ensures var s := Run(Locking(LogState(4, 3, [], 0, [], Region(0, 0)), []),
                         [Write(1), Write(2), Lock(Region(0, 8)), Lock(Region(0, 8)), Write(3)]);
            var t := Next(s, Unlock(1));
            && s.held == [Region(0, 8), Region(0, 8)] && s.log.locks == s.held && !CanWrite(s.log)
            && CanWrite(t.log) && t.held == [Region(0, 8)] && Holds(t.held[0], t.log.position)
  {
    hide Run;
    TwoLocksHeld();
    assert [Region(0, 8), Region(0, 8)][..1] + [Region(0, 8), Region(0, 8)][2..] == [Region(0, 8)];
  }

  lemma TwoLocksHeld()
    ensures var g := Region(0, 8);
            Run(Locking(LogState(4, 3, [], 0, [], Region(0, 0)), []),
                [Write(1), Write(2), Lock(g), Lock(g), Write(3)])
            == Locking(LogState(4, 3, [1, 2, 3], 0, [g, g], g), [g, g])
  {
    hide Run;
    var g := Region(0, 8);
    var s0 := Locking(LogState(4, 3, [], 0, [], Region(0, 0)), []);
    RunFive(s0, Write(1), Write(2), Lock(g), Lock(g), Write(3));
    var s2 := Locking(LogState(4, 3, [1, 2], 8, [], Region(0, 0)), []);
    assert Next(Next(s0, Write(1)), Write(2)) == s2;
    assert Next(Next(s2, Lock(g)), Lock(g)) == Locking(LogState(4, 3, [1, 2], 8, [g, g], g), [g, g]);
  }

  lemma RunFive<T>(s: Locking<T>, a: Step<T>, b: Step<T>, c: Step<T>, d: Step<T>, e: Step<T>)
    ensures Run(s, [a, b, c, d, e]) == Next(Next(Next(Next(Next(s, a), b), c), d), e)
  {
    RunFirst(s, a, [b, c, d, e]);
    RunFirst(Next(s, a), b, [c, d, e]);
    RunFirst(Next(Next(s, a), b), c, [d, e]);
    RunFirst(Next(Next(Next(s, a), b), c), d, [e]);
    RunFirst(Next(Next(Next(Next(s, a), b), c), d), e, []);
    assert [a] + [b, c, d, e] == [a, b, c, d, e] && [b] + [c, d, e] == [b, c, d, e];
    assert [c] + [d, e] == [c, d, e] && [d] + [e] == [d, e] && [e] + [] == [e];
  }

  lemma RunFirst<T>(s: Locking<T>, step: Step<T>, rest: seq<Step<T>>)
    ensures Run(s, [step] + rest) == Run(Next(s, step), rest)
  {
    assert ([step] + rest)[1..] == rest;
  }
}
