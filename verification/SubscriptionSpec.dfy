/** A list of subscriptions as a value: who is subscribed, in order, and what was called back. */
module SubscriptionSpec {

  /** Handles are numbered in the order of their creation. */
  datatype Call<M> =
    | Subscribed(id: nat, first: bool)       // `first`: by the hook of the first subscription
    | Received(id: nat, message: M)
    | Unsubscribed(id: nat, last: bool)      // `last`: by the hook of the last unsubscription

  datatype Subscriptions<M> = Subscriptions(created: nat, live: seq<nat>, calls: seq<Call<M>>)

  function Subscribe<M>(s: Subscriptions<M>): Subscriptions<M> {
    Subscriptions(s.created + 1, s.live + [s.created], s.calls + [Subscribed(s.created, s.live == [])])
  }

  function Remove(live: seq<nat>, id: nat): seq<nat> {
    if live == [] then []
    else if live[0] == id then live[1..]
    else [live[0]] + Remove(live[1..], id)
  }

  /** Revoking a handle that was revoked already does nothing. */
  function Unsubscribe<M>(s: Subscriptions<M>, id: nat): Subscriptions<M> {
    if id !in s.live then s
    else
      var rest := Remove(s.live, id);
      s.(live := rest, calls := s.calls + [Unsubscribed(id, rest == [])])
  }

  function UnsubscribeAll<M>(s: Subscriptions<M>): Subscriptions<M>
    decreases |s.live|
  {
    if s.live == [] then s else UnsubscribeAll(Unsubscribe(s, s.live[0]))
  }

  function Receptions<M>(live: seq<nat>, message: M): (calls: seq<Call<M>>)
    ensures |calls| == |live| && forall i :: 0 <= i < |live| ==> calls[i] == Received(live[i], message)
  {
    seq(|live|, i requires 0 <= i < |live| => Received(live[i], message))
  }

  function Send<M>(s: Subscriptions<M>, message: M): Subscriptions<M> {
    s.(calls := s.calls + Receptions(s.live, message))
  }

  datatype Step<M> = DoSubscribe | DoUnsubscribe(id: nat) | DoUnsubscribeAll | DoSend(message: M)

  function Next<M>(s: Subscriptions<M>, step: Step<M>): Subscriptions<M> {
    match step
    case DoSubscribe => Subscribe(s)
    case DoUnsubscribe(id) => Unsubscribe(s, id)
    case DoUnsubscribeAll => UnsubscribeAll(s)
    case DoSend(m) => Send(s, m)
  }

  function Run<M>(s: Subscriptions<M>, steps: seq<Step<M>>): Subscriptions<M> {
    if steps == [] then s else Next(Run(s, steps[..|steps| - 1]), steps[|steps| - 1])
  }

  function Empty<M>(): Subscriptions<M> {
    Subscriptions(0, [], [])
  }

  // ---------------------------------------------------------------- what the callbacks tell

  /** A subscriber's life: not subscribed yet, receiving, over. */
  datatype Life = Unborn | Alive | Over | Broken

  function Lived<M>(life: Life, call: Call<M>, id: nat): Life {
    if call.id != id then life
    else
      match call
      case Subscribed(_, _) => if life == Unborn then Alive else Broken
      case Received(_, _) => if life == Alive then Alive else Broken
      case Unsubscribed(_, _) => if life == Alive then Over else Broken
  }

  /** What handle `id` has seen: one subscription, then messages, then at most one revocation, in any
      other order the life is broken. */
  function LifeOf<M>(calls: seq<Call<M>>, id: nat): Life {
    if calls == [] then Unborn else Lived(LifeOf(calls[..|calls| - 1], id), calls[|calls| - 1], id)
  }

  /** Whether the list is used: the hook of the first subscription starts it, that of the last
      unsubscription stops it. None when these do not alternate. */
  datatype Use = Idle | Used | Confused

  function UseOf<M>(calls: seq<Call<M>>): Use {
    if calls == [] then Idle
    else
      var before, call := UseOf(calls[..|calls| - 1]), calls[|calls| - 1];
      match call
      case Subscribed(_, first) => if before == (if first then Idle else Used) then Used else Confused
      case Received(_, _) => if before == Used then Used else Confused
      case Unsubscribed(_, last) =>
        if before == Used then (if last then Idle else Used) else Confused
  }

  /** The handles receiving are exactly the live ones, listed once in the order of subscription; the
      other created ones have been revoked, once. */
  ghost predicate Sound<M>(s: Subscriptions<M>) {
    && Sorted(s.live)
    && (forall i :: 0 <= i < |s.live| ==> s.live[i] < s.created)
    && (forall id: nat :: LifeOf(s.calls, id)
          == if id >= s.created then Unborn else if id in s.live then Alive else Over)
    && UseOf(s.calls) == if s.live == [] then Idle else Used
  }

  lemma CallAdded<M>(calls: seq<Call<M>>, call: Call<M>)
    ensures forall id: nat :: LifeOf(calls + [call], id) == Lived(LifeOf(calls, id), call, id)
    ensures (calls + [call])[..|calls|] == calls
  {
    assert (calls + [call])[..|calls|] == calls;
  }

  lemma SubscribeSound<M>(s: Subscriptions<M>)
    requires Sound(s)
    ensures Sound(Subscribe(s))
  {
    CallAdded(s.calls, Subscribed(s.created, s.live == []));
    assert s.created !in s.live;
    assert forall id: nat :: id in Subscribe(s).live <==> id in s.live || id == s.created;
  }

  ghost predicate Sorted(s: seq<nat>) {
    forall i, j :: 0 <= i < j < |s| ==> s[i] < s[j]
  }

  /** Removing a handle leaves the others, in order. */
  lemma {:induction false} RemoveExact(live: seq<nat>, id: nat)
    requires Sorted(live)
    ensures Sorted(Remove(live, id))
    ensures forall x :: x in Remove(live, id) <==> x in live && x != id
    ensures id in live ==> |Remove(live, id)| == |live| - 1
  {
    hide Sorted;
    if live != [] {
      HeadOrTail(live);
      SortedHead(live);
      if live[0] != id {
        RemoveExact(live[1..], id);
        SortedCons(live[0], Remove(live[1..], id));
      }
    }
  }

  lemma SortedHead(s: seq<nat>)
    requires Sorted(s) && s != []
    ensures Sorted(s[1..]) && forall x :: x in s[1..] ==> s[0] < x
  {
  }

  lemma SortedCons(x: nat, s: seq<nat>)
    requires Sorted(s) && forall y :: y in s ==> x < y
    ensures Sorted([x] + s) && forall y :: y in [x] + s <==> y == x || y in s
  {
    var all := [x] + s;
    assert forall i :: 0 < i < |all| ==> all[i] == s[i - 1] && s[i - 1] in s;
  }

  lemma HeadOrTail(s: seq<nat>)
    requires s != []
    ensures forall x :: x in s <==> x == s[0] || x in s[1..]
  {
  }

  lemma UnsubscribeSound<M>(s: Subscriptions<M>, id: nat)
    requires Sound(s)
    ensures Sound(Unsubscribe(s, id))
    ensures id in s.live ==> |Unsubscribe(s, id).live| == |s.live| - 1
  {
    if id in s.live {
      RemoveExact(s.live, id);
      assert forall i :: 0 <= i < |Remove(s.live, id)| ==> Remove(s.live, id)[i] in s.live;
      CallAdded(s.calls, Unsubscribed(id, Remove(s.live, id) == []));
    }
  }

  lemma {:induction false} UnsubscribeAllSound<M>(s: Subscriptions<M>)
    requires Sound(s)
    ensures Sound(UnsubscribeAll(s)) && UnsubscribeAll(s).live == []
    ensures UnsubscribeAll(s).created == s.created
    decreases |s.live|
  {
    if s.live != [] {
      UnsubscribeSound(s, s.live[0]);
      UnsubscribeAllSound(Unsubscribe(s, s.live[0]));
    }
  }

  /** They are told in the order of subscription, and the last of them by the hook of the last revocation. */
  lemma {:induction false} UnsubscribeAllTells<M>(s: Subscriptions<M>)
    ensures var told := UnsubscribeAll(s).calls;
            && |told| == |s.calls| + |s.live| && told[..|s.calls|] == s.calls
            && forall i :: 0 <= i < |s.live| ==> told[|s.calls| + i] == Unsubscribed(s.live[i], i == |s.live| - 1)
    decreases |s.live|
  {
    if s.live != [] {
      var t := Unsubscribe(s, s.live[0]);
      UnsubscribeAllTells(t);
      assert t.live == s.live[1..];
      var told := UnsubscribeAll(s).calls;
      assert told[..|s.calls|] == told[..|t.calls|][..|s.calls|];
      assert told[|s.calls|] == told[..|t.calls|][|s.calls|];
      forall i | 0 < i < |s.live|
        ensures told[|s.calls| + i] == Unsubscribed(s.live[i], i == |s.live| - 1)
      {
        assert told[|t.calls| + (i - 1)] == Unsubscribed(t.live[i - 1], i - 1 == |t.live| - 1);
      }
    }
  }

  lemma {:induction false} SendSound<M>(s: Subscriptions<M>, message: M, k: nat)
    requires Sound(s) && k <= |s.live|
    ensures Sound(s.(calls := s.calls + Receptions(s.live, message)[..k]))
  {
    hide Sound, Receptions;
    var all := Receptions(s.live, message);
    if k == 0 {
      assert s.calls + all[..0] == s.calls;
    } else {
      SendSound(s, message, k - 1);
      var before := s.calls + all[..k - 1];
      assert s.calls + all[..k] == before + [all[k - 1]];
      ReceptionSound(s.(calls := before), message, k - 1);
    }
  }

  lemma ReceptionSound<M>(s: Subscriptions<M>, message: M, k: nat)
    requires Sound(s) && k < |s.live|
    ensures Sound(s.(calls := s.calls + [Received(s.live[k], message)]))
  {
    var call := Received(s.live[k], message);
    CallAdded(s.calls, call);
    hide LifeOf;
    assert forall id: nat :: Lived(LifeOf(s.calls, id), call, id) == LifeOf(s.calls, id);
  }

  /** Over any run of subscriptions, revocations (repeated ones included), revocations of all and
      messages: the list holds exactly the live handles in the order of subscription; every handle
      was called back in the order subscription, messages, at most one revocation; and the hooks of
      the first subscription and the last revocation alternate. */
  lemma {:induction false} RunSound<M>(steps: seq<Step<M>>)
    ensures Sound(Run(Empty(), steps))
  {
    if steps == [] {
      assert forall id: nat :: LifeOf<M>([], id) == Unborn;
    } else {
      RunSound(steps[..|steps| - 1]);
      var s := Run(Empty(), steps[..|steps| - 1]);
      match steps[|steps| - 1]
      case DoSubscribe => SubscribeSound(s);
      case DoUnsubscribe(id) => UnsubscribeSound(s, id);
      case DoUnsubscribeAll => UnsubscribeAllSound(s);
      case DoSend(m) =>
        SendSound(s, m, |s.live|);
        assert Receptions(s.live, m)[..|s.live|] == Receptions(s.live, m);
    }
  }

  /** A message reaches each live handle exactly once, in the order of subscription, and no other. */
  lemma SendReachesLive<M>(steps: seq<Step<M>>, message: M, id: nat)
    ensures var s := Run(Empty(), steps);
            var reached := Send(s, message).calls[|s.calls|..];
            && |reached| == |s.live|
            && (forall i :: 0 <= i < |reached| ==> reached[i] == Received(s.live[i], message))
            && (forall i, j :: 0 <= i < j < |reached| ==> reached[i].id < reached[j].id)
            && (LifeOf(s.calls, id) == Alive <==> exists i :: 0 <= i < |reached| && reached[i].id == id)
  {
    RunSound(steps);
    var s := Run(Empty(), steps);
    var reached := Send(s, message).calls[|s.calls|..];
    assert reached == Receptions(s.live, message);
    if id in s.live {
      var i :| 0 <= i < |s.live| && s.live[i] == id;
      assert reached[i].id == id;
    }
  }
}
