/**
 A service as a value: its own subscriptions, and the nested ones registered through their handles.
 Both kinds of handles are numbered in the order of their creation.
 */
module ServiceSpec {
  import opened SubscriptionSpec

  datatype Event =
    | Started | Stopped
    | Opened(sid: nat) | Closed(sid: nat)               // service subscriptions
    | NestedOpened(id: nat) | NestedClosed(id: nat)     // nested subscriptions

  datatype Service = Service(
    created: nat,
    live: seq<nat>,               // the live service handles
    nestedCreated: nat,
    nestedLive: seq<nat>,         // the live nested handles
    handles: map<nat, seq<nat>>,  // registered through each service handle, in order
    log: seq<Event>
  )

  const NEW_SERVICE := Service(0, [], 0, [], map[], [])

  function Registered(s: Service, sid: nat): seq<nat> {
    if sid in s.handles then s.handles[sid] else []
  }

  // ---------------------------------------------------------------- steps

  function Log(s: Service, event: Event): Service {
    s.(log := s.log + [event])
  }

  /** The hook of the first subscription starts the service before the handle is told. */
  function Open(s: Service): Service {
    var started := if s.live == [] then Log(s, Started) else s;
    Log(started.(created := s.created + 1, live := s.live + [s.created]), Opened(s.created))
  }

  /** Subscribing to something else through a service handle, which registers the new handle. */
  function OpenNested(s: Service, sid: nat): Service {
    var id := s.nestedCreated;
    Log(s.(nestedCreated := id + 1, nestedLive := s.nestedLive + [id],
           handles := s.handles[sid := Registered(s, sid) + [id]]),
        NestedOpened(id))
  }

  function CloseNested(s: Service, id: nat): Service {
    if id !in s.nestedLive then s
    else Log(s.(nestedLive := Remove(s.nestedLive, id)), NestedClosed(id))
  }

  function Cascade(s: Service, ids: seq<nat>): Service {
    if ids == [] then s else CloseNested(Cascade(s, ids[..|ids| - 1]), ids[|ids| - 1])
  }

  /** Revoking a service handle: it leaves the list, its nested handles are revoked, it is told, and
      the service stops if it was the last one. */
  function Close(s: Service, sid: nat): Service {
    if sid !in s.live then s
    else
      var detached := s.(live := Remove(s.live, sid), handles := s.handles - {sid});
      var told := Log(Cascade(detached, Registered(s, sid)), Closed(sid));
      if told.live == [] then Log(told, Stopped) else told
  }

  function CloseAll(s: Service, k: nat): Service
    decreases k
  {
    if k == 0 || s.live == [] then s else CloseAll(Close(s, s.live[0]), k - 1)
  }

  datatype Step =
    | DoOpen | DoOpenNested(sid: nat) | DoCloseNested(id: nat) | DoClose(sid: nat) | DoCloseAll

  /** A nested subscription takes an existing service handle, revoked or not. */
  function Next(s: Service, step: Step): Service {
    match step
    case DoOpen => Open(s)
    case DoOpenNested(sid) => if sid < s.created then OpenNested(s, sid) else s
    case DoCloseNested(id) => CloseNested(s, id)
    case DoClose(sid) => Close(s, sid)
    case DoCloseAll => CloseAll(s, |s.live|)
  }

  function Run(steps: seq<Step>): Service {
    if steps == [] then NEW_SERVICE else Next(Run(steps[..|steps| - 1]), steps[|steps| - 1])
  }

  // ---------------------------------------------------------------- what the log tells

  datatype Phase = Off | On | Wrong

  /** Starts and stops alternate, beginning with a start, and service handles are opened and closed
      only in between. */
  function PhaseOf(log: seq<Event>): Phase {
    if log == [] then Off
    else
      var before, event := PhaseOf(log[..|log| - 1]), log[|log| - 1];
      match event
      case Started => if before == Off then On else Wrong
      case Stopped => if before == On then Off else Wrong
      case Opened(_) => if before == On then On else Wrong
      case Closed(_) => if before == On then On else Wrong
      case NestedOpened(_) => before
      case NestedClosed(_) => before
  }

  /** The nested handles opened and not closed. */
  ghost function OpenIn(log: seq<Event>): set<nat> {
    if log == [] then {}
    else
      var before, event := OpenIn(log[..|log| - 1]), log[|log| - 1];
      match event
      case NestedOpened(id) => before + {id}
      case NestedClosed(id) => before - {id}
      case _ => before
  }

  ghost function OwnedAfter(s: Service, step: Step, owned: set<nat>): set<nat> {
    if step.DoOpenNested? && step.sid in s.live then owned + {s.nestedCreated} else owned
  }

  /** The nested handles registered through a service handle that was live at that time. */
  ghost function Owned(steps: seq<Step>): set<nat> {
    if steps == [] then {}
    else
      var before := steps[..|steps| - 1];
      OwnedAfter(Run(before), steps[|steps| - 1], Owned(before))
  }

  ghost predicate StopsClean(log: seq<Event>, owned: set<nat>) {
    forall k :: 0 <= k < |log| && log[k] == Stopped ==> OpenIn(log[..k]) !! owned
  }

  ghost predicate Bounded(log: seq<Event>, n: nat) {
    forall k :: 0 <= k < |log| && log[k].NestedOpened? ==> log[k].id < n
  }

  ghost predicate LogSound(log: seq<Event>, on: bool, open: set<nat>, n: nat, owned: set<nat>) {
    && PhaseOf(log) == (if on then On else Off)
    && OpenIn(log) == open
    && Bounded(log, n)
    && (forall id :: id in owned ==> id < n)
    && StopsClean(log, owned)
  }

  lemma {:induction false} OpenAreBounded(log: seq<Event>, n: nat, k: nat)
    requires Bounded(log, n) && k <= |log|
    ensures forall id :: id in OpenIn(log[..k]) ==> id < n
  {
    if k > 0 {
      OpenAreBounded(log, n, k - 1);
      assert log[..k][..k - 1] == log[..k - 1];
    }
  }

  /** How one more event changes what the log tells. */
  lemma EventAdded(log: seq<Event>, event: Event, on: bool, open: set<nat>, n: nat, owned: set<nat>)
    requires LogSound(log, on, open, n, owned)
    requires match event
             case Started => !on
             case Stopped => on && open !! owned
             case Opened(_) => on
             case Closed(_) => on
             case NestedOpened(id) => id < n
             case NestedClosed(_) => true
    ensures LogSound(log + [event],
                     if event.Started? then true else if event.Stopped? then false else on,
                     if event.NestedOpened? then open + {event.id}
                     else if event.NestedClosed? then open - {event.id} else open,
                     n, owned)
  {
    var more := log + [event];
    assert more[..|log|] == log;
    forall k | 0 <= k < |more| && more[k] == Stopped
      ensures OpenIn(more[..k]) !! owned
    {
      assert more[..k] == log[..k];
      assert k == |log| ==> log[..k] == log;
    }
  }

  /** A handle that is just being created was not open at any stop before. */
  lemma HandleAdded(log: seq<Event>, on: bool, open: set<nat>, n: nat, owned: set<nat>)
    requires LogSound(log, on, open, n, owned)
    ensures LogSound(log, on, open, n + 1, owned) && LogSound(log, on, open, n + 1, owned + {n})
    ensures n !in owned
  {
    forall k | 0 <= k < |log| && log[k] == Stopped
      ensures OpenIn(log[..k]) !! owned + {n}
    {
      OpenAreBounded(log, n, k);
    }
  }

  // ---------------------------------------------------------------- what every step keeps

  ghost predicate Below(s: seq<nat>, n: nat) {
    forall i :: 0 <= i < |s| ==> s[i] < n
  }

  ghost function Members(s: seq<nat>): set<nat> {
    set i | i in s
  }

  /** `on` tells whether the service is running by the log. */
  ghost predicate SoundWhile(s: Service, owned: set<nat>, on: bool) {
    && Sorted(s.live) && Below(s.live, s.created)
    && Sorted(s.nestedLive) && Below(s.nestedLive, s.nestedCreated)
    && LogSound(s.log, on, Members(s.nestedLive), s.nestedCreated, owned)
  }

  ghost predicate Sound(s: Service, owned: set<nat>) {
    SoundWhile(s, owned, s.live != [])
  }

  ghost predicate RegisteredLive(s: Service, id: nat) {
    exists i :: 0 <= i < |s.live| && id in Registered(s, s.live[i])
  }

  /** A live owned nested handle is registered with a live service handle, or among `leaving`. */
  ghost predicate Kept(s: Service, owned: set<nat>, leaving: seq<nat>) {
    forall id :: id in s.nestedLive && id in owned ==> id in leaving || RegisteredLive(s, id)
  }

  lemma {:induction false} RemoveKeepsOrder(live: seq<nat>, id: nat, n: nat)
    requires Sorted(live) && Below(live, n)
    ensures Sorted(Remove(live, id)) && Below(Remove(live, id), n)
    ensures forall x :: x in Remove(live, id) <==> x in live && x != id
    ensures id in live ==> |Remove(live, id)| == |live| - 1
  {
    RemoveExact(live, id);
    assert forall i :: 0 <= i < |Remove(live, id)| ==> Remove(live, id)[i] in live;
  }

  lemma OpenSound(s: Service, owned: set<nat>)
    requires Sound(s, owned) && Kept(s, owned, [])
    ensures Sound(Open(s), owned) && Kept(Open(s), owned, [])
  {
    var started := if s.live == [] then s.log + [Started] else s.log;
    if s.live == [] {
      EventAdded(s.log, Started, false, Members(s.nestedLive), s.nestedCreated, owned);
    }
    EventAdded(started, Opened(s.created), true, Members(s.nestedLive), s.nestedCreated, owned);
    forall id | id in s.nestedLive && id in owned
      ensures RegisteredLive(Open(s), id)
    {
      var i :| 0 <= i < |s.live| && id in Registered(s, s.live[i]);
      assert Open(s).live[i] == s.live[i];
    }
  }

  lemma OpenNestedSound(s: Service, sid: nat, owned: set<nat>)
    requires Sound(s, owned) && Kept(s, owned, [])
    ensures var more := if sid in s.live then owned + {s.nestedCreated} else owned;
            Sound(OpenNested(s, sid), more) && Kept(OpenNested(s, sid), more, [])
  {
    hide LogSound;
    var n, t := s.nestedCreated, OpenNested(s, sid);
    HandleAdded(s.log, s.live != [], Members(s.nestedLive), n, owned);
    var more := if sid in s.live then owned + {n} else owned;
    assert LogSound(s.log, s.live != [], Members(s.nestedLive), n + 1, more);
    EventAdded(s.log, NestedOpened(n), s.live != [], Members(s.nestedLive), n + 1, more);
    assert Members(t.nestedLive) == Members(s.nestedLive) + {n};
    forall id | id in t.nestedLive && id in more
      ensures RegisteredLive(t, id)
    {
      if id == n {
        var i :| 0 <= i < |s.live| && s.live[i] == sid;
        assert n in Registered(t, t.live[i]);
      } else {
        var i :| 0 <= i < |s.live| && id in Registered(s, s.live[i]);
        assert id in Registered(t, t.live[i]);
      }
    }
  }

  lemma CloseNestedSound(s: Service, id: nat, owned: set<nat>, leaving: seq<nat>, on: bool)
    requires SoundWhile(s, owned, on) && Kept(s, owned, leaving)
    ensures SoundWhile(CloseNested(s, id), owned, on) && Kept(CloseNested(s, id), owned, leaving)
    ensures CloseNested(s, id).live == s.live && id !in CloseNested(s, id).nestedLive
    ensures forall x :: x in CloseNested(s, id).nestedLive ==> x in s.nestedLive
  {
    if id in s.nestedLive {
      var t := CloseNested(s, id);
      RemoveKeepsOrder(s.nestedLive, id, s.nestedCreated);
      EventAdded(s.log, NestedClosed(id), on, Members(s.nestedLive), s.nestedCreated, owned);
      assert Members(t.nestedLive) == Members(s.nestedLive) - {id};
      forall x | x in t.nestedLive && x in owned && x !in leaving
        ensures RegisteredLive(t, x)
      {
        var i :| 0 <= i < |s.live| && x in Registered(s, s.live[i]);
        assert x in Registered(t, t.live[i]);
      }
    }
  }

  lemma {:induction false} CascadeSound(s: Service, ids: seq<nat>, owned: set<nat>, leaving: seq<nat>, on: bool)
    requires SoundWhile(s, owned, on) && Kept(s, owned, leaving)
    ensures SoundWhile(Cascade(s, ids), owned, on) && Kept(Cascade(s, ids), owned, leaving)
    ensures Cascade(s, ids).live == s.live
    ensures forall x :: x in Cascade(s, ids).nestedLive ==> x in s.nestedLive && x !in ids
  {
    if ids != [] {
      CascadeSound(s, ids[..|ids| - 1], owned, leaving, on);
      CloseNestedSound(Cascade(s, ids[..|ids| - 1]), ids[|ids| - 1], owned, leaving, on);
      assert forall x :: x in ids <==> x in ids[..|ids| - 1] || x == ids[|ids| - 1];
    }
  }

  lemma CloseSound(s: Service, sid: nat, owned: set<nat>)
    requires Sound(s, owned) && Kept(s, owned, [])
    ensures Sound(Close(s, sid), owned) && Kept(Close(s, sid), owned, [])
    ensures sid in s.live ==> |Close(s, sid).live| == |s.live| - 1
    ensures Close(s, sid).created == s.created
  {
    if sid in s.live {
      var leaving := Registered(s, sid);
      var detached := s.(live := Remove(s.live, sid), handles := s.handles - {sid});
      RemoveKeepsOrder(s.live, sid, s.created);
      DetachedKept(s, sid, owned);
      CascadeSound(detached, leaving, owned, leaving, true);
      var cascaded := Cascade(detached, leaving);
      CascadeFrame(detached, leaving);
      EventAdded(cascaded.log, Closed(sid), true, Members(cascaded.nestedLive), cascaded.nestedCreated, owned);
      var told := Log(cascaded, Closed(sid));
      ToldKept(cascaded, told, owned, leaving);
      if told.live == [] {
        assert Members(told.nestedLive) !! owned;
        EventAdded(told.log, Stopped, true, Members(told.nestedLive), told.nestedCreated, owned);
        ToldKept(told, Log(told, Stopped), owned, []);
      }
    }
  }

  lemma DetachedKept(s: Service, sid: nat, owned: set<nat>)
    requires Sound(s, owned) && Kept(s, owned, []) && sid in s.live
    ensures Kept(s.(live := Remove(s.live, sid), handles := s.handles - {sid}), owned, Registered(s, sid))
  {
    var t := s.(live := Remove(s.live, sid), handles := s.handles - {sid});
    RemoveKeepsOrder(s.live, sid, s.created);
    forall id | id in t.nestedLive && id in owned && id !in Registered(s, sid)
      ensures RegisteredLive(t, id)
    {
      var i :| 0 <= i < |s.live| && id in Registered(s, s.live[i]);
      assert s.live[i] in t.live;
      var j :| 0 <= j < |t.live| && t.live[j] == s.live[i];
      assert id in Registered(t, t.live[j]);
    }
  }

  lemma {:induction false} CascadeFrame(s: Service, ids: seq<nat>)
    ensures Cascade(s, ids).handles == s.handles && Cascade(s, ids).live == s.live
    ensures Cascade(s, ids).created == s.created && Cascade(s, ids).nestedCreated == s.nestedCreated
  {
    if ids != [] {
      CascadeFrame(s, ids[..|ids| - 1]);
    }
  }

  /** Revoking the first handle leaves the others. */
  lemma CloseFirst(s: Service)
    requires s.live != []
    ensures Close(s, s.live[0]).live == s.live[1..]
  {
    CascadeFrame(s.(live := s.live[1..], handles := s.handles - {s.live[0]}), Registered(s, s.live[0]));
  }

  /** One more event does not change who is registered; those leaving are gone. */
  lemma ToldKept(s: Service, t: Service, owned: set<nat>, leaving: seq<nat>)
    requires Kept(s, owned, leaving) && t == s.(log := t.log)
    requires forall id :: id in leaving ==> id !in s.nestedLive
    ensures Kept(t, owned, [])
  {
    forall id | id in t.nestedLive && id in owned
      ensures RegisteredLive(t, id)
    {
      var i :| 0 <= i < |s.live| && id in Registered(s, s.live[i]);
      assert id in Registered(t, t.live[i]);
    }
  }

  lemma {:induction false} CloseAllSound(s: Service, k: nat, owned: set<nat>)
    requires Sound(s, owned) && Kept(s, owned, [])
    ensures Sound(CloseAll(s, k), owned) && Kept(CloseAll(s, k), owned, [])
    ensures k >= |s.live| ==> CloseAll(s, k).live == []
    decreases k
  {
    hide Sound, Kept, Close;
    if k > 0 && s.live != [] {
      CloseSound(s, s.live[0], owned);
      CloseAllSound(Close(s, s.live[0]), k - 1, owned);
    }
  }

  lemma {:induction false} RunSound(steps: seq<Step>)
    ensures Sound(Run(steps), Owned(steps)) && Kept(Run(steps), Owned(steps), [])
  {
    if steps != [] {
      hide Sound, Kept, Next;
      var before, step := steps[..|steps| - 1], steps[|steps| - 1];
      RunSound(before);
      NextSound(Run(before), step, Owned(before));
    }
  }

  lemma NextSound(s: Service, step: Step, owned: set<nat>)
    requires Sound(s, owned) && Kept(s, owned, [])
    ensures Sound(Next(s, step), OwnedAfter(s, step, owned)) && Kept(Next(s, step), OwnedAfter(s, step, owned), [])
  {
    LiveBelow(s, owned);
    hide Sound, Kept, Open, OpenNested, Close, CloseAll;
    match step
    case DoOpen => OpenSound(s, owned);
    case DoOpenNested(sid) =>
      if sid < s.created {
        OpenNestedSound(s, sid, owned);
      }
    case DoCloseNested(id) => CloseOneSound(s, id, owned);
    case DoClose(sid) => CloseSound(s, sid, owned);
    case DoCloseAll => CloseAllSound(s, |s.live|, owned);
  }

  lemma LiveBelow(s: Service, owned: set<nat>)
    requires Sound(s, owned)
    ensures forall sid :: sid in s.live ==> sid < s.created
  {
  }

  lemma CloseOneSound(s: Service, id: nat, owned: set<nat>)
    requires Sound(s, owned) && Kept(s, owned, [])
    ensures Sound(CloseNested(s, id), owned) && Kept(CloseNested(s, id), owned, [])
  {
    CloseNestedSound(s, id, owned, [], s.live != []);
  }

  /** Over any run: starts and stops alternate, beginning with a start; the service is running exactly
      while a service handle is live; and at every stop, all nested handles registered through any
      service handle while that was live have been revoked, even those of them that had been revoked
      one by one before. */
  lemma LifecycleOverRuns(steps: seq<Step>, k: int, id: nat)
    ensures var s := Run(steps);
            && PhaseOf(s.log) == (if s.live == [] then Off else On)
            && (0 <= k < |s.log| && s.log[k] == Stopped && id in Owned(steps) ==> id !in OpenIn(s.log[..k]))
            && (s.live == [] && id in Owned(steps) ==> id !in s.nestedLive)
  {
    RunSound(steps);
  }

  // ---------------------------------------------------------------- late registrations

  /** Nested handle `id` is live and registered with no live service handle. */
  ghost predicate Late(s: Service, id: nat) {
    && id < s.nestedCreated && id in s.nestedLive
    && (forall sid :: sid in s.live ==> sid < s.created && id !in Registered(s, sid))
    && (forall sid :: sid in s.handles ==> sid < s.created)
  }

  /** From its first `n` events on, the log tells that `id` is open. */
  ghost predicate OpenSince(log: seq<Event>, n: nat, id: nat) {
    n <= |log| && forall k :: n <= k <= |log| ==> id in OpenIn(log[..k])
  }

  ghost predicate Lasting(s: Service, n: nat, id: nat) {
    Late(s, id) && OpenSince(s.log, n, id)
  }

  lemma EventLasts(log: seq<Event>, event: Event, n: nat, id: nat)
    requires OpenSince(log, n, id) && event != NestedClosed(id)
    ensures OpenSince(log + [event], n, id)
  {
    var more := log + [event];
    assert more[..|log|] == log && more[..|more|] == more && log[..|log|] == log;
    forall k | n <= k <= |more|
      ensures id in OpenIn(more[..k])
    {
      assert k <= |log| ==> more[..k] == log[..k];
    }
  }

  lemma OpenLasts(s: Service, n: nat, id: nat)
    requires Lasting(s, n, id)
    ensures Lasting(Open(s), n, id)
  {
    EventLasts(s.log, Started, n, id);
    EventLasts(if s.live == [] then s.log + [Started] else s.log, Opened(s.created), n, id);
  }

  lemma OpenNestedLasts(s: Service, sid: nat, n: nat, id: nat)
    requires Lasting(s, n, id) && sid < s.created && forall i :: i in s.nestedLive ==> i < s.nestedCreated
    ensures Lasting(OpenNested(s, sid), n, id)
  {
    EventLasts(s.log, NestedOpened(s.nestedCreated), n, id);
  }

  lemma CloseNestedLasts(s: Service, other: nat, n: nat, id: nat)
    requires Lasting(s, n, id) && other != id
    ensures Lasting(CloseNested(s, other), n, id)
  {
    if other in s.nestedLive {
      RemoveOthers(s.nestedLive, other);
      EventLasts(s.log, NestedClosed(other), n, id);
    }
  }

  lemma {:induction false} CascadeLasts(s: Service, ids: seq<nat>, n: nat, id: nat)
    requires Lasting(s, n, id) && id !in ids
    ensures Lasting(Cascade(s, ids), n, id)
  {
    if ids != [] {
      CascadeLasts(s, ids[..|ids| - 1], n, id);
      CloseNestedLasts(Cascade(s, ids[..|ids| - 1]), ids[|ids| - 1], n, id);
    }
  }

  /** The cascade of a live service handle does not reach `id`. */
  lemma CloseLasts(s: Service, sid: nat, n: nat, id: nat)
    requires Lasting(s, n, id)
    ensures Lasting(Close(s, sid), n, id)
  {
    if sid in s.live {
      var detached := s.(live := Remove(s.live, sid), handles := s.handles - {sid});
      RemoveOthers(s.live, sid);
      CascadeLasts(detached, Registered(s, sid), n, id);
      var cascaded := Cascade(detached, Registered(s, sid));
      ToldLasts(cascaded, Closed(sid), n, id);
      ToldLasts(Log(cascaded, Closed(sid)), Stopped, n, id);
    }
  }

  lemma ToldLasts(s: Service, event: Event, n: nat, id: nat)
    requires Lasting(s, n, id) && event != NestedClosed(id)
    ensures Lasting(Log(s, event), n, id)
  {
    EventLasts(s.log, event, n, id);
  }

  lemma {:induction false} RemoveOthers(live: seq<nat>, id: nat)
    ensures forall x :: x in Remove(live, id) ==> x in live
    ensures forall x :: x in live && x != id ==> x in Remove(live, id)
  {
    if live != [] && live[0] != id {
      RemoveOthers(live[1..], id);
    }
  }

  lemma {:induction false} CloseAllLasts(s: Service, k: nat, n: nat, id: nat)
    requires Lasting(s, n, id)
    ensures Lasting(CloseAll(s, k), n, id)
    decreases k
  {
    if k > 0 && s.live != [] {
      CloseLasts(s, s.live[0], n, id);
      CloseAllLasts(Close(s, s.live[0]), k - 1, n, id);
    }
  }

  lemma NextLasts(s: Service, step: Step, n: nat, id: nat)
    requires Lasting(s, n, id) && step != DoCloseNested(id)
    requires forall i :: i in s.nestedLive ==> i < s.nestedCreated
    ensures Lasting(Next(s, step), n, id)
  {
    hide Lasting, Open, OpenNested, CloseNested, Close, CloseAll;
    match step
    case DoOpen => OpenLasts(s, n, id);
    case DoOpenNested(sid) =>
      if sid < s.created {
        OpenNestedLasts(s, sid, n, id);
      }
    case DoCloseNested(other) => CloseNestedLasts(s, other, n, id);
    case DoClose(sid) => CloseLasts(s, sid, n, id);
    case DoCloseAll => CloseAllLasts(s, |s.live|, n, id);
  }

  /** The service handles created and registered with so far. */
  lemma {:induction false} HandlesBelow(steps: seq<Step>)
    ensures forall sid :: sid in Run(steps).handles ==> sid < Run(steps).created
  {
    if steps != [] {
      HandlesBelow(steps[..|steps| - 1]);
      HandlesStayBelow(Run(steps[..|steps| - 1]), steps[|steps| - 1]);
    }
  }

  lemma HandlesStayBelow(s: Service, step: Step)
    requires forall sid :: sid in s.handles ==> sid < s.created
    ensures forall sid :: sid in Next(s, step).handles ==> sid < Next(s, step).created
  {
    if step.DoClose? && step.sid in s.live {
      CascadeFrame(s.(live := Remove(s.live, step.sid), handles := s.handles - {step.sid}), Registered(s, step.sid));
    } else if step.DoCloseAll? {
      CloseAllFrame(s, |s.live|);
    }
  }

  lemma {:induction false} CloseAllFrame(s: Service, k: nat)
    ensures CloseAll(s, k).handles.Keys <= s.handles.Keys && CloseAll(s, k).created == s.created
    decreases k
  {
    if k > 0 && s.live != [] {
      var sid := s.live[0];
      CascadeFrame(s.(live := Remove(s.live, sid), handles := s.handles - {sid}), Registered(s, sid));
      CloseAllFrame(Close(s, sid), k - 1);
    }
  }

  lemma {:induction false} RunLasts(before: seq<Step>, after: seq<Step>, n: nat, id: nat)
    requires Lasting(Run(before), n, id) && DoCloseNested(id) !in after
    ensures Lasting(Run(before + after), n, id)
  {
    hide Lasting, Next;
    if after == [] {
      assert before + after == before;
    } else {
      var steps := before + after;
      assert steps[..|steps| - 1] == before + after[..|after| - 1];
      RunLasts(before, after[..|after| - 1], n, id);
      RunNestedBelow(steps[..|steps| - 1]);
      NextLasts(Run(steps[..|steps| - 1]), steps[|steps| - 1], n, id);
    }
  }

  lemma RunNestedBelow(steps: seq<Step>)
    ensures forall i :: i in Run(steps).nestedLive ==> i < Run(steps).nestedCreated
  {
    hide *;
    RunSound(steps);
    NestedBelow(Run(steps), Owned(steps));
  }

  lemma NestedBelow(s: Service, owned: set<nat>)
    requires Sound(s, owned)
    ensures forall i :: i in s.nestedLive ==> i < s.nestedCreated
    ensures forall sid :: sid in s.live ==> sid < s.created
    ensures OpenIn(s.log) == Members(s.nestedLive)
  {
  }

  lemma {:induction false} OwnedStays(before: seq<Step>, after: seq<Step>)
    ensures Owned(before) <= Owned(before + after)
  {
    if after == [] {
      assert before + after == before;
    } else {
      var steps := before + after;
      assert steps[..|steps| - 1] == before + after[..|after| - 1];
      OwnedStays(before, after[..|after| - 1]);
    }
  }

  lemma LateAtFirst(before: seq<Step>, sid: nat)
    requires sid < Run(before).created && sid !in Run(before).live
    ensures var s := Run(before);
            Lasting(OpenNested(s, sid), |s.log| + 1, s.nestedCreated)
  {
    var s := Run(before);
    var id, t := s.nestedCreated, OpenNested(s, sid);
    RunSound(before);
    NestedBelow(s, Owned(before));
    HandlesBelow(before);
    RunRegistersBelow(before);
    assert t.log[..|t.log|] == t.log && t.log[..|s.log|] == s.log;
    assert forall x :: x in t.nestedLive <==> x in s.nestedLive || x == id;
  }

  /** Registered handles have been created. */
  lemma {:induction false} RunRegistersBelow(steps: seq<Step>)
    ensures RegistersBelow(Run(steps).handles, Run(steps).nestedCreated)
  {
    if steps != [] {
      var before, step := Run(steps[..|steps| - 1]), steps[|steps| - 1];
      RunRegistersBelow(steps[..|steps| - 1]);
      if step.DoClose? && step.sid in before.live {
        CascadeFrame(before.(live := Remove(before.live, step.sid), handles := before.handles - {step.sid}),
                     Registered(before, step.sid));
      } else if step.DoCloseAll? {
        CloseAllRegisters(before, |before.live|);
      }
    }
  }

  ghost predicate RegistersBelow(handles: map<nat, seq<nat>>, n: nat) {
    forall sid, i :: sid in handles && 0 <= i < |handles[sid]| ==> handles[sid][i] < n
  }

  lemma {:induction false} CloseAllRegisters(s: Service, k: nat)
    requires RegistersBelow(s.handles, s.nestedCreated)
    ensures RegistersBelow(CloseAll(s, k).handles, CloseAll(s, k).nestedCreated)
    decreases k
  {
    if k > 0 && s.live != [] {
      var sid := s.live[0];
      CascadeFrame(s.(live := Remove(s.live, sid), handles := s.handles - {sid}), Registered(s, sid));
      CloseAllRegisters(Close(s, sid), k - 1);
    }
  }

  /** Over any run: a nested handle registered through a service handle, and not revoked by itself, is
      still open at a later stop exactly if that service handle was revoked already when the nested one
      was registered. */
  lemma OutlivesExact(before: seq<Step>, sid: nat, after: seq<Step>, k: nat)
    requires sid < Run(before).created && DoCloseNested(Run(before).nestedCreated) !in after
    requires var registered := before + [DoOpenNested(sid)];
             var log := Run(registered + after).log;
             |Run(registered).log| <= k < |log| && log[k] == Stopped
    ensures var log := Run(before + [DoOpenNested(sid)] + after).log;
            Run(before).nestedCreated in OpenIn(log[..k]) <==> sid !in Run(before).live
  {
    var s, registered := Run(before), before + [DoOpenNested(sid)];
    var id := s.nestedCreated;
    assert registered[..|before|] == before;
    assert Run(registered) == OpenNested(s, sid);
    if sid in s.live {
      OwnedStays(registered, after);
      assert id in Owned(registered);
      LifecycleOverRuns(registered + after, k, id);
    } else {
      LateAtFirst(before, sid);
      RunLasts(registered, after, |s.log| + 1, id);
    }
  }

  /** So it can happen: the service has stopped, and a nested handle is registered and stays. */
  lemma LateRegistrationOutlives()
    ensures var s := Run([DoOpen, DoClose(0), DoOpenNested(0)]);
            s.live == [] && s.nestedLive == [0] && PhaseOf(s.log) == Off
  {
    var steps := [DoOpen, DoClose(0), DoOpenNested(0)];
    assert steps[..2] == [DoOpen, DoClose(0)] && steps[..2][..1] == [DoOpen] && steps[..1][..0] == [];
    assert steps[..2][1] == DoClose(0) && steps[2] == DoOpenNested(0);
    assert Run([]) == NEW_SERVICE;
    assert Run([DoOpen]) == Open(NEW_SERVICE);
    assert Run(steps[..2]) == Close(Open(NEW_SERVICE), 0);
    RunSound(steps);
    assert Cascade(Open(NEW_SERVICE), []) == Open(NEW_SERVICE);
  }
}
