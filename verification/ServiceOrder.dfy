/** The order in which a service tells its subscribers that they are revoked. */
module ServiceOrder {
  import opened ServiceSpec
  import opened SubscriptionSpec

  /** The nested handles registered through service handle `sid` while it was live. */
  ghost function RegisteredWhileLive(steps: seq<ServiceSpec.Step>, sid: nat): set<nat> {
    if steps == [] then {}
    else
      var before := steps[..|steps| - 1];
      RegisteredAfter(ServiceSpec.Run(before), steps[|steps| - 1], sid, RegisteredWhileLive(before, sid))
  }

  ghost function RegisteredAfter(s: Service, step: ServiceSpec.Step, sid: nat, own: set<nat>): set<nat> {
    if step == DoOpenNested(sid) && sid in s.live then own + {s.nestedCreated} else own
  }

  /** Whenever `sid` was told, none of `own` was open any more. */
  ghost predicate ToldLast(log: seq<Event>, sid: nat, own: set<nat>) {
    forall k :: 0 <= k < |log| && log[k] == Closed(sid) ==> OpenIn(log[..k]) !! own
  }

  ghost predicate Mine(s: Service, sid: nat, own: set<nat>) {
    && (forall id :: id in own ==> id < s.nestedCreated)
    && ToldLast(s.log, sid, own)
    && (sid in s.live ==> Sorted(Registered(s, sid)) && Members(Registered(s, sid)) == own)
    && (sid !in s.live ==> forall id :: id in own ==> id !in s.nestedLive)
    && (sid >= s.created ==> own == {} && sid !in s.handles)
  }

  // ---------------------------------------------------------------- one event, one revocation

  lemma EventTold(log: seq<Event>, event: Event, sid: nat, own: set<nat>)
    requires ToldLast(log, sid, own) && (event == Closed(sid) ==> OpenIn(log) !! own)
    ensures ToldLast(log + [event], sid, own)
  {
    var more := log + [event];
    forall k | 0 <= k < |more| && more[k] == Closed(sid)
      ensures OpenIn(more[..k]) !! own
    {
      assert more[..k] == if k == |log| then log else log[..k];
    }
  }

  /** The handles of a list that are live, in the order of the list. */
  ghost function Among(ids: seq<nat>, live: seq<nat>): seq<nat> {
    if ids == [] then []
    else
      var last := ids[|ids| - 1];
      Among(ids[..|ids| - 1], live) + if last in live then [last] else []
  }

  lemma {:induction false} AmongExact(ids: seq<nat>, live: seq<nat>)
    requires Sorted(ids)
    ensures Sorted(Among(ids, live)) && forall x :: x in Among(ids, live) <==> x in ids && x in live
  {
    hide Sorted;
    if ids != [] {
      SortedInit(ids);
      AmongExact(ids[..|ids| - 1], live);
      if ids[|ids| - 1] in live {
        SortedSnoc(Among(ids[..|ids| - 1], live), ids[|ids| - 1]);
      } else {
        assert Among(ids, live) == Among(ids[..|ids| - 1], live);
      }
    }
  }

  lemma SortedInit(s: seq<nat>)
    requires Sorted(s) && s != []
    ensures var before, last := s[..|s| - 1], s[|s| - 1];
            Sorted(before) && forall x :: (x in before ==> x < last) && (x in s <==> x in before || x == last)
  {
  }

  lemma SortedSnoc(s: seq<nat>, x: nat)
    requires Sorted(s) && forall y :: y in s ==> y < x
    ensures Sorted(s + [x])
  {
    assert forall i :: 0 <= i < |s| ==> (s + [x])[i] in s;
  }

  ghost function Revocations(ids: seq<nat>): (events: seq<Event>)
    ensures |events| == |ids| && forall i :: 0 <= i < |ids| ==> events[i] == NestedClosed(ids[i])
  {
    seq(|ids|, i requires 0 <= i < |ids| => NestedClosed(ids[i]))
  }

  /** Revoking registered handles tells those still live, in the order of the list. */
  lemma {:induction false} CascadeTells(s: Service, ids: seq<nat>)
    requires Sorted(ids) && Sorted(s.nestedLive)
    ensures Cascade(s, ids).log == s.log + Revocations(Among(ids, s.nestedLive))
    ensures Sorted(Cascade(s, ids).nestedLive)
    ensures forall x :: x in Cascade(s, ids).nestedLive <==> x in s.nestedLive && x !in ids
  {
    if ids != [] {
      var before, last := ids[..|ids| - 1], ids[|ids| - 1];
      CascadeTells(s, before);
      RemoveExact(Cascade(s, before).nestedLive, last);
      assert forall x :: x in ids <==> x in before || x == last;
      assert last !in before;
      var gone := Among(before, s.nestedLive);
      assert Revocations(gone + [last]) == Revocations(gone) + [NestedClosed(last)];
    } else {
      assert Revocations([]) == [];
    }
  }

  lemma {:induction false} RevocationsTold(log: seq<Event>, ids: seq<nat>, sid: nat, own: set<nat>)
    requires ToldLast(log, sid, own)
    ensures ToldLast(log + Revocations(ids), sid, own)
  {
    if ids == [] {
      assert log + Revocations(ids) == log;
    } else {
      var before, last := ids[..|ids| - 1], ids[|ids| - 1];
      RevocationsTold(log, before, sid, own);
      assert log + Revocations(ids) == log + Revocations(before) + [NestedClosed(last)];
      EventTold(log + Revocations(before), NestedClosed(last), sid, own);
    }
  }

  // ---------------------------------------------------------------- what every step keeps

  lemma OpenMine(s: Service, sid: nat, own: set<nat>)
    requires Mine(s, sid, own) && forall i :: i in s.live ==> i < s.created
    ensures Mine(Open(s), sid, own)
  {
    EventTold(s.log, Started, sid, own);
    EventTold(if s.live == [] then s.log + [Started] else s.log, Opened(s.created), sid, own);
  }

  lemma OpenNestedMine(s: Service, other: nat, sid: nat, own: set<nat>)
    requires Mine(s, sid, own) && other < s.created
    requires forall i :: i in OpenIn(s.log) ==> i < s.nestedCreated
    requires forall k :: 0 <= k < |s.log| ==> s.nestedCreated !in OpenIn(s.log[..k])
    ensures Mine(OpenNested(s, other), sid, RegisteredAfter(s, DoOpenNested(other), sid, own))
  {
    var more := RegisteredAfter(s, DoOpenNested(other), sid, own);
    assert ToldLast(s.log, sid, more);
    EventTold(s.log, NestedOpened(s.nestedCreated), sid, more);
    if other == sid && sid in s.live {
      assert forall x :: x in Registered(s, sid) ==> x in own;
      SortedSnoc(Registered(s, sid), s.nestedCreated);
    }
  }

  lemma CloseNestedMine(s: Service, id: nat, sid: nat, own: set<nat>)
    requires Mine(s, sid, own) && Sorted(s.nestedLive)
    ensures Mine(CloseNested(s, id), sid, own)
  {
    EventTold(s.log, NestedClosed(id), sid, own);
    RemoveExact(s.nestedLive, id);
  }

  /** What revoking a live service handle tells: its own nested handles that are still live, by number, then
      itself, then the stop if it is the last. */
  lemma CloseTells(s: Service, sid: nat)
    requires sid in s.live && Sorted(s.live) && Sorted(s.nestedLive) && Sorted(Registered(s, sid))
    ensures Close(s, sid).log
         == s.log + Revocations(Among(Registered(s, sid), s.nestedLive)) + [Closed(sid)]
            + if |s.live| == 1 then [Stopped] else []
    ensures forall x :: x in Close(s, sid).nestedLive <==> x in s.nestedLive && x !in Registered(s, sid)
    ensures Close(s, sid).handles == s.handles - {sid} && Close(s, sid).live == Remove(s.live, sid)
    ensures Close(s, sid).created == s.created && Close(s, sid).nestedCreated == s.nestedCreated
  {
    var detached := s.(live := Remove(s.live, sid), handles := s.handles - {sid});
    RemoveExact(s.live, sid);
    CascadeTells(detached, Registered(s, sid));
    CascadeFrame(detached, Registered(s, sid));
  }

  lemma CloseMine(s: Service, other: nat, sid: nat, own: set<nat>)
    requires Mine(s, sid, own) && Sorted(s.live) && Sorted(s.nestedLive)
    requires other in s.live ==> Sorted(Registered(s, other))
    requires OpenIn(s.log) == Members(s.nestedLive)
    ensures Mine(Close(s, other), sid, own)
  {
    hide ToldLast, OpenIn, Close, Revocations, Sorted, Among, Remove;
    if other in s.live {
      CloseTells(s, other);
      RemoveExact(s.live, other);
      AmongExact(Registered(s, other), s.nestedLive);
      CloseTold(s.log, Among(Registered(s, other), s.nestedLive), other, |s.live| == 1, sid, own);
    } else {
      CloseDead(s, other);
    }
  }

  lemma CloseDead(s: Service, sid: nat)
    requires sid !in s.live
    ensures Close(s, sid) == s
  {
  }

  lemma CloseTold(log: seq<Event>, gone: seq<nat>, other: nat, last: bool, sid: nat, own: set<nat>)
    requires ToldLast(log, sid, own)
    requires other == sid ==> forall id :: id in OpenIn(log) && id in own ==> id in gone
    ensures ToldLast(log + Revocations(gone) + [Closed(other)] + if last then [Stopped] else [], sid, own)
  {
    hide ToldLast, Revocations, OpenIn;
    RevocationsTold(log, gone, sid, own);
    RevokedAreClosed(log, gone);
    EventTold(log + Revocations(gone), Closed(other), sid, own);
    var told := log + Revocations(gone) + [Closed(other)];
    EventTold(told, Stopped, sid, own);
    assert told + [] == told;
  }

  lemma {:induction false} RevokedAreClosed(log: seq<Event>, ids: seq<nat>)
    ensures OpenIn(log + Revocations(ids)) == OpenIn(log) - Members(ids)
  {
    if ids == [] {
      assert log + Revocations(ids) == log;
    } else {
      var before, last := ids[..|ids| - 1], ids[|ids| - 1];
      RevokedAreClosed(log, before);
      assert log + Revocations(ids) == log + Revocations(before) + [NestedClosed(last)];
      assert Members(ids) == Members(before) + {last};
    }
  }

  /** The handles registered through each service handle are listed by number. */
  ghost predicate Ordered(s: Service) {
    forall sid :: sid in s.handles ==>
      Sorted(s.handles[sid]) && forall id :: id in s.handles[sid] ==> id < s.nestedCreated
  }

  /** What the runs of a service are known to keep. */
  ghost predicate Regular(s: Service, owned: set<nat>) {
    ServiceSpec.Sound(s, owned) && ServiceSpec.Kept(s, owned, []) && Ordered(s)
  }

  lemma RegularFacts(s: Service, owned: set<nat>)
    requires Regular(s, owned)
    ensures Sorted(s.live) && Sorted(s.nestedLive) && OpenIn(s.log) == Members(s.nestedLive)
    ensures forall i :: i in s.live ==> i < s.created && Sorted(Registered(s, i))
    ensures forall i :: i in OpenIn(s.log) ==> i < s.nestedCreated
    ensures forall k :: 0 <= k < |s.log| ==> s.nestedCreated !in OpenIn(s.log[..k])
  {
    forall k | 0 <= k < |s.log|
      ensures s.nestedCreated !in OpenIn(s.log[..k])
    {
      OpenAreBounded(s.log, s.nestedCreated, k);
    }
  }

  lemma CloseRegular(s: Service, other: nat, owned: set<nat>)
    requires Regular(s, owned)
    ensures Regular(Close(s, other), owned)
  {
    hide ServiceSpec.Sound, ServiceSpec.Kept, Close;
    CloseSound(s, other, owned);
    if other in s.live {
      RegularFacts(s, owned);
      CloseTells(s, other);
    } else {
      CloseDead(s, other);
    }
  }

  lemma {:induction false} CloseAllMine(s: Service, k: nat, owned: set<nat>, sid: nat, own: set<nat>)
    requires Regular(s, owned) && Mine(s, sid, own)
    ensures Regular(CloseAll(s, k), owned) && Mine(CloseAll(s, k), sid, own)
    decreases k
  {
    hide Regular, Mine, Close;
    if k > 0 && s.live != [] {
      RegularFacts(s, owned);
      CloseRegular(s, s.live[0], owned);
      CloseMine(s, s.live[0], sid, own);
      CloseAllMine(Close(s, s.live[0]), k - 1, owned, sid, own);
    }
  }

  lemma NextMine(s: Service, step: ServiceSpec.Step, owned: set<nat>, sid: nat, own: set<nat>)
    requires Regular(s, owned) && Mine(s, sid, own)
    ensures Mine(ServiceSpec.Next(s, step), sid, RegisteredAfter(s, step, sid, own))
  {
    hide Regular, Mine, Open, OpenNested, CloseNested, Close, CloseAll;
    RegularFacts(s, owned);
    match step
    case DoOpen => OpenMine(s, sid, own);
    case DoOpenNested(other) =>
      if other < s.created {
        OpenNestedMine(s, other, sid, own);
      }
    case DoCloseNested(id) => CloseNestedMine(s, id, sid, own);
    case DoClose(other) => CloseMine(s, other, sid, own);
    case DoCloseAll => CloseAllMine(s, |s.live|, owned, sid, own);
  }

  lemma NextOrdered(s: Service, step: ServiceSpec.Step, owned: set<nat>)
    requires Regular(s, owned)
    ensures Ordered(ServiceSpec.Next(s, step))
  {
    hide ServiceSpec.Sound, ServiceSpec.Kept, Close, CloseAll;
    match step
    case DoOpenNested(other) =>
      if other < s.created {
        SortedSnoc(Registered(s, other), s.nestedCreated);
      }
    case DoClose(other) => CloseRegular(s, other, owned);
    case DoCloseAll => CloseAllRegular(s, |s.live|, owned);
    case _ =>
  }

  lemma {:induction false} CloseAllRegular(s: Service, k: nat, owned: set<nat>)
    requires Regular(s, owned)
    ensures Regular(CloseAll(s, k), owned)
    decreases k
  {
    hide Regular, Close;
    if k > 0 && s.live != [] {
      CloseRegular(s, s.live[0], owned);
      CloseAllRegular(Close(s, s.live[0]), k - 1, owned);
    }
  }

  lemma {:induction false} RunMine(steps: seq<ServiceSpec.Step>, sid: nat)
    ensures Regular(ServiceSpec.Run(steps), Owned(steps))
    ensures Mine(ServiceSpec.Run(steps), sid, RegisteredWhileLive(steps, sid))
  {
    if steps != [] {
      hide Mine, ServiceSpec.Next, Ordered;
      var before, step := steps[..|steps| - 1], steps[|steps| - 1];
      RunMine(before, sid);
      NextMine(ServiceSpec.Run(before), step, Owned(before), sid, RegisteredWhileLive(before, sid));
      NextOrdered(ServiceSpec.Run(before), step, Owned(before));
      ServiceSpec.RunSound(steps);
    }
  }

  // ---------------------------------------------------------------- the order of a revocation

  /** Over any run: when a service handle is told that it is revoked, all nested handles registered through
      it while it was live have been told. */
  lemma ToldAfterNested(steps: seq<ServiceSpec.Step>, sid: nat, k: int)
    requires 0 <= k < |ServiceSpec.Run(steps).log| && ServiceSpec.Run(steps).log[k] == Closed(sid)
    ensures OpenIn(ServiceSpec.Run(steps).log[..k]) !! RegisteredWhileLive(steps, sid)
  {
    RunMine(steps, sid);
  }

  /** Over any run: revoking a live service handle tells first the nested handles registered through it that
      are still live, in the order of their creation, then the handle itself, and then, if it was the last,
      the service that it stops; and nothing else. */
  lemma CloseExact(steps: seq<ServiceSpec.Step>, sid: nat)
    requires sid in ServiceSpec.Run(steps).live
    ensures var s := ServiceSpec.Run(steps);
            var gone := Among(Registered(s, sid), s.nestedLive);
            && Sorted(gone)
            && (forall id :: id in gone <==> id in s.nestedLive && id in RegisteredWhileLive(steps, sid))
            && ServiceSpec.Run(steps + [DoClose(sid)]).log
               == s.log + Revocations(gone) + [Closed(sid)] + if s.live == [sid] then [Stopped] else []
  {
    var s := ServiceSpec.Run(steps);
    assert (steps + [DoClose(sid)])[..|steps|] == steps;
    RunMine(steps, sid);
    RegularFacts(s, Owned(steps));
    hide Regular, Close, Revocations;
    AmongExact(Registered(s, sid), s.nestedLive);
    CloseTells(s, sid);
    assert s.live == [sid] <==> |s.live| == 1;
  }

  /** The service handles that a log tells to be revoked, in order. */
  ghost function ClosedOf(log: seq<Event>): seq<nat> {
    if log == [] then []
    else
      var event := log[|log| - 1];
      ClosedOf(log[..|log| - 1]) + if event.Closed? then [event.sid] else []
  }

  lemma {:induction false} ClosedJoins(a: seq<Event>, b: seq<Event>)
    ensures ClosedOf(a + b) == ClosedOf(a) + ClosedOf(b)
  {
    if b == [] {
      assert a + b == a;
    } else {
      assert (a + b)[..|a + b| - 1] == a + b[..|b| - 1];
      ClosedJoins(a, b[..|b| - 1]);
    }
  }

  lemma {:induction false} NoneClosed(events: seq<Event>)
    requires forall i :: 0 <= i < |events| ==> !events[i].Closed?
    ensures ClosedOf(events) == []
  {
    if events != [] {
      NoneClosed(events[..|events| - 1]);
    }
  }

  lemma OneClosed(log: seq<Event>, gone: seq<nat>, sid: nat, rest: seq<Event>)
    requires forall i :: 0 <= i < |rest| ==> !rest[i].Closed?
    ensures ClosedOf(log + Revocations(gone) + [Closed(sid)] + rest) == ClosedOf(log) + [sid]
  {
    hide ClosedOf, Revocations;
    NoneClosed(Revocations(gone));
    NoneClosed(rest);
    ClosedOne(sid);
    ClosedJoins(log, Revocations(gone));
    ClosedJoins(log + Revocations(gone), [Closed(sid)]);
    ClosedJoins(log + Revocations(gone) + [Closed(sid)], rest);
  }

  lemma ClosedOne(sid: nat)
    ensures ClosedOf([Closed(sid)]) == [sid]
  {
    assert [Closed(sid)][..0] == [];
  }

  lemma {:induction false} CloseAllTells(s: Service, k: nat, owned: set<nat>)
    requires Regular(s, owned) && k == |s.live|
    ensures ClosedOf(CloseAll(s, k).log) == ClosedOf(s.log) + s.live && CloseAll(s, k).live == []
    decreases k
  {
    hide Regular, Close, ClosedOf;
    if k > 0 {
      CloseFirstTells(s, owned);
      CloseFirst(s);
      CloseRegular(s, s.live[0], owned);
      CloseAllTells(Close(s, s.live[0]), k - 1, owned);
      assert s.live == [s.live[0]] + s.live[1..];
    }
  }

  lemma CloseFirstTells(s: Service, owned: set<nat>)
    requires Regular(s, owned) && s.live != []
    ensures ClosedOf(Close(s, s.live[0]).log) == ClosedOf(s.log) + [s.live[0]]
  {
    hide *;
    RegularFacts(s, owned);
    CloseTells(s, s.live[0]);
    OneClosed(s.log, Among(Registered(s, s.live[0]), s.nestedLive), s.live[0],
              if |s.live| == 1 then [Stopped] else []);
  }

  /** Over any run: revoking all service handles tells each live one once, in the order of subscription. */
  lemma CloseAllExact(steps: seq<ServiceSpec.Step>)
    ensures var s := ServiceSpec.Run(steps);
            ClosedOf(ServiceSpec.Run(steps + [DoCloseAll]).log) == ClosedOf(s.log) + s.live
  {
    assert (steps + [DoCloseAll])[..|steps|] == steps;
    RunMine(steps, 0);
    hide Regular, CloseAll, ClosedOf;
    CloseAllTells(ServiceSpec.Run(steps), |ServiceSpec.Run(steps).live|, Owned(steps));
  }
}
