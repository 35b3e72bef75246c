/**
 A service over two linked lists: its own subscriptions, and one list of nested subscriptions that
 are registered through its handles and revoked with them.
 */
module MsgServices {
  import opened MsgSubscriptionLists
  import Spec = ServiceSpec
  import SubscriptionSpec

  class MsgServiceHandle {
    const handle: MsgHandle
    var handles: seq<MsgHandle>   // registered and not yet revoked with this one

    constructor (handle: MsgHandle)
      ensures this.handle == handle && handles == []
    {
      this.handle, handles := handle, [];
    }

    method AddSubscription(nested: MsgHandle)
      modifies this`handles
      ensures handles == old(handles) + [nested]
    {
      handles := handles + [nested];
    }
  }

  class MsgService {
    const main: MsgSubscriptions<()>
    const nested: MsgSubscriptions<()>
    var log: seq<Spec.Event>
    var services: seq<MsgServiceHandle>   // by number: the service handle each handle is

    // -------------------------------------------------------------- the two lists

    /** Both lists are well formed, and share no handles. */
    ghost predicate Lists()
      reads main, nested,
            main.handles`unsubscribed, main.chain`prev, main.chain`next,
            nested.handles`unsubscribed, nested.chain`prev, nested.chain`next
    {
      && main != nested && main.Valid() && nested.Valid()
      && (forall h :: h in main.handles ==> h !in nested.handles)
      && (forall h :: h in main.chain ==> h in main.handles)
      && (forall h :: h in nested.chain ==> h in nested.handles)
    }

    method SubscribeMain() returns (handle: MsgHandle)
      requires Lists()
      modifies main, (if main.last == null then {} else {main.last})`next
      ensures Lists() && main.View() == SubscriptionSpec.Subscribe(old(main.View()))
      ensures nested.View() == old(nested.View()) && nested.handles == old(nested.handles)
      ensures fresh(handle) && handle.id == old(main.View().created) && main.handles == old(main.handles) + [handle]
    {
      hide Linked, Numbered, Ids;
      assert main.last != null ==> main.last in main.chain && main.last in main.handles;
      handle := main.Subscribe();
      assert nested.Valid();
    }

    method SubscribeNested() returns (handle: MsgHandle)
      requires Lists()
      modifies nested, (if nested.last == null then {} else {nested.last})`next
      ensures Lists() && nested.View() == SubscriptionSpec.Subscribe(old(nested.View()))
      ensures main.View() == old(main.View()) && main.handles == old(main.handles)
      ensures fresh(handle) && handle.id == old(nested.View().created)
      ensures nested.handles == old(nested.handles) + [handle]
    {
      hide Linked, Numbered, Ids;
      assert nested.last != null ==> nested.last in nested.chain && nested.last in nested.handles;
      handle := nested.Subscribe();
      assert main.Valid();
    }

    method UnsubscribeMain(handle: MsgHandle)
      requires Lists() && handle in main.handles
      modifies main`first, main`last, main`calls, main`chain,
               main.handles`unsubscribed, main.handles`prev, main.handles`next
      ensures Lists() && main.View() == SubscriptionSpec.Unsubscribe(old(main.View()), handle.id)
      ensures main.handles == old(main.handles) && nested.handles == old(nested.handles)
      ensures nested.View() == old(nested.View())
    {
      hide Linked, Numbered, Ids;
      assert forall h :: h in nested.chain || h in nested.handles ==> h !in main.handles;
      main.Unsubscribe(handle);
      main.ChainInHandles();
      assert nested.chain == old(nested.chain) && nested.handles == old(nested.handles);
      assert forall h :: h in nested.chain ==> h.prev == old(h.prev);
      assert forall h :: h in nested.chain ==> h.next == old(h.next);
      assert forall h :: h in nested.handles ==> h.unsubscribed == old(h.unsubscribed);
      assert nested.Valid();
    }

    method UnsubscribeNested(handle: MsgHandle)
      requires Lists() && handle in nested.handles
      modifies nested`first, nested`last, nested`calls, nested`chain,
               nested.handles`unsubscribed, nested.handles`prev, nested.handles`next
      ensures Lists() && nested.View() == SubscriptionSpec.Unsubscribe(old(nested.View()), handle.id)
      ensures nested.handles == old(nested.handles) && main.handles == old(main.handles)
      ensures main.View() == old(main.View())
    {
      hide Linked, Numbered, Ids;
      assert forall h :: h in main.chain || h in main.handles ==> h !in nested.handles;
      nested.Unsubscribe(handle);
      nested.ChainInHandles();
      assert main.chain == old(main.chain) && main.handles == old(main.handles);
      assert forall h :: h in main.chain ==> h.prev == old(h.prev);
      assert forall h :: h in main.chain ==> h.next == old(h.next);
      assert forall h :: h in main.handles ==> h.unsubscribed == old(h.unsubscribed);
      assert main.Valid();
    }

    // -------------------------------------------------------------- the handles of the service

    /** `services` carry the given handles, and nested handles only. */
    ghost predicate Enrolled(mains: seq<MsgHandle>)
      reads this`services, nested`handles, services`handles
    {
      && |services| == |mains|
      && (forall i :: 0 <= i < |services| ==> services[i].handle == mains[i])
      && (forall i, j :: 0 <= i < j < |services| ==> services[i] != services[j])
      && (forall i :: 0 <= i < |services| ==> forall h :: h in services[i].handles ==> h in nested.handles)
    }

    ghost function Registered(): map<nat, seq<nat>>
      reads this`services, services`handles
    {
      map i: nat | i < |services| && services[i].handles != [] :: Ids(services[i].handles)
    }

    method Enlist(handle: MsgHandle, ghost mains: seq<MsgHandle>) returns (service: MsgServiceHandle)
      requires Enrolled(mains)
      modifies this`services
      ensures Enrolled(mains + [handle])
      ensures fresh(service) && services == old(services) + [service]
      ensures service.handle == handle && Registered() == old(Registered())
    {
      service := new MsgServiceHandle(handle);
      services := services + [service];
    }

    method Add(service: MsgServiceHandle, ghost sid: nat, handle: MsgHandle, ghost mains: seq<MsgHandle>)
      requires Enrolled(mains) && sid < |services| && services[sid] == service && handle in nested.handles
      modifies service`handles
      ensures Enrolled(mains)
      ensures Registered() == old(Registered())[sid := old(Ids(service.handles)) + [handle.id]]
    {
      service.AddSubscription(handle);
      assert Ids(service.handles) == old(Ids(service.handles)) + [handle.id];
    }

    method Clear(service: MsgServiceHandle, ghost sid: nat, ghost mains: seq<MsgHandle>)
      requires Enrolled(mains) && sid < |services| && services[sid] == service
      modifies service`handles
      ensures Enrolled(mains) && Registered() == old(Registered()) - {sid}
    {
      service.handles := [];
    }

    // -------------------------------------------------------------- the service

    ghost predicate Valid()
      reads this`services, main, nested, services,
            main.handles`unsubscribed, main.chain`prev, main.chain`next,
            nested.handles`unsubscribed, nested.chain`prev, nested.chain`next
    {
      Lists() && Enrolled(main.handles)
    }

    ghost function View(): Spec.Service
      reads this, main, nested, services
    {
      Spec.Service(main.View().created, main.View().live, nested.View().created, nested.View().live,
                   Registered(), log)
    }

    constructor ()
      ensures Valid() && View() == Spec.NEW_SERVICE
    {
      main := new MsgSubscriptions<()>();
      nested := new MsgSubscriptions<()>();
      log, services := [], [];
    }

    lemma EmptyMain()
      requires Valid()
      ensures main.first == null <==> View().live == []
    {
    }

    method Log(event: Spec.Event)
      requires Valid()
      modifies this`log
      ensures Valid() && View() == Spec.Log(old(View()), event)
    {
      hide Lists, Enrolled, Registered, MsgSubscriptions.View;
      log := log + [event];
    }

    method Subscribe() returns (service: MsgServiceHandle)
      requires Valid()
      modifies this`services, main, (if main.last == null then {} else {main.last})`next
      ensures Valid() && fresh(service) && services == old(services) + [service]
      ensures var was := old(View());
              service.handle.id == was.created
              && View() == was.(created := was.created + 1, live := was.live + [was.created])
    {
      hide MsgSubscriptions.View, MsgSubscriptions.Valid, Ids, Lists, Enrolled, Registered;
      var handle := SubscribeMain();
      service := Enlist(handle, old(main.handles));
    }

    /** The hook of the first subscription starts the service. */
    method Open() returns (service: MsgServiceHandle)
      requires Valid()
      modifies this`services, this`log, main, (if main.last == null then {} else {main.last})`next
      ensures Valid() && View() == Spec.Open(old(View()))
      ensures fresh(service) && services == old(services) + [service]
    {
      hide Valid, View;
      EmptyMain();
      var starts := main.first == null;
      service := Subscribe();
      if starts {
        Log(Spec.Started);
      }
      Log(Spec.Opened(service.handle.id));
    }

    // -------------------------------------------------------------- nested subscriptions

    lemma RegisteredAt(sid: nat)
      requires Valid() && sid < |services|
      ensures Ids(services[sid].handles) == Spec.Registered(View(), sid)
      ensures services[sid].handle.id == sid && services[sid].handle in main.handles
      ensures forall h :: h in services[sid].handles ==> h in nested.handles
    {
    }

    method NewNested() returns (handle: MsgHandle)
      requires Valid()
      modifies nested, (if nested.last == null then {} else {nested.last})`next
      ensures Valid() && fresh(handle) && nested.handles == old(nested.handles) + [handle]
      ensures var was := old(View());
              && handle.id == was.nestedCreated
              && View() == was.(nestedCreated := handle.id + 1, nestedLive := was.nestedLive + [handle.id])
    {
      hide MsgSubscriptions.View, MsgSubscriptions.Valid, Ids, Lists, Registered;
      handle := SubscribeNested();
    }

    method Register(service: MsgServiceHandle, ghost sid: nat, handle: MsgHandle)
      requires Valid() && sid < |services| && services[sid] == service && handle in nested.handles
      modifies service`handles
      ensures Valid()
      ensures var was := old(View());
              View() == was.(handles := was.handles[sid := Spec.Registered(was, sid) + [handle.id]])
    {
      hide MsgSubscriptions.View, MsgSubscriptions.Valid, Ids, Lists, Enrolled, Registered;
      RegisteredAt(sid);
      Add(service, sid, handle, main.handles);
    }

    /** Subscribing to something else through a service handle. */
    method OpenNested(service: MsgServiceHandle, ghost sid: nat) returns (handle: MsgHandle)
      requires Valid() && sid < |services| && services[sid] == service
      modifies this`log, service`handles, nested, (if nested.last == null then {} else {nested.last})`next
      ensures Valid() && View() == Spec.OpenNested(old(View()), sid)
      ensures fresh(handle) && nested.handles == old(nested.handles) + [handle]
    {
      hide Valid, View, Spec.Log;
      handle := NewNested();
      Register(service, sid, handle);
      Log(Spec.NestedOpened(handle.id));
    }

    lemma LiveNested(handle: MsgHandle)
      requires Valid() && handle in nested.handles
      ensures handle.id in View().nestedLive <==> !handle.unsubscribed
    {
      nested.InChain(handle);
    }

    method RevokeNested(handle: MsgHandle)
      requires Valid() && handle in nested.handles && handle.id in View().nestedLive
      modifies nested`first, nested`last, nested`calls, nested`chain,
               nested.handles`unsubscribed, nested.handles`prev, nested.handles`next
      ensures Valid() && nested.handles == old(nested.handles)
      ensures View() == old(View()).(nestedLive := SubscriptionSpec.Remove(old(View()).nestedLive, handle.id))
    {
      hide MsgSubscriptions.View, MsgSubscriptions.Valid, Ids, Lists, Enrolled, Registered, SubscriptionSpec.Remove;
      UnsubscribeNested(handle);
    }

    method CloseNested(handle: MsgHandle)
      requires Valid() && handle in nested.handles
      modifies this`log, nested`first, nested`last, nested`calls, nested`chain,
               nested.handles`unsubscribed, nested.handles`prev, nested.handles`next
      ensures Valid() && nested.handles == old(nested.handles)
      ensures View() == Spec.CloseNested(old(View()), handle.id)
    {
      hide Valid, View, Spec.Log, SubscriptionSpec.Remove;
      LiveNested(handle);
      if !handle.unsubscribed {
        RevokeNested(handle);
        Log(Spec.NestedClosed(handle.id));
      }
    }

    /** Revokes the handles one by one, those revoked before included. */
    method Cascade(handles: seq<MsgHandle>)
      requires Valid() && forall h :: h in handles ==> h in nested.handles
      modifies this`log, nested`first, nested`last, nested`calls, nested`chain,
               nested.handles`unsubscribed, nested.handles`prev, nested.handles`next
      ensures Valid() && nested.handles == old(nested.handles)
      ensures View() == Spec.Cascade(old(View()), Ids(handles))
    {
      hide Valid, View;
      var i := 0;
      while i < |handles|
        invariant i <= |handles| && Valid() && nested.handles == old(nested.handles)
        invariant View() == Spec.Cascade(old(View()), Ids(handles[..i]))
      {
        CloseNested(handles[i]);
        i := i + 1;
        assert Ids(handles[..i])[..i - 1] == Ids(handles[..i - 1]);
      }
      assert handles[..i] == handles;
    }

    // -------------------------------------------------------------- revoking service handles

    lemma LiveService(sid: nat)
      requires Valid() && sid < |services|
      ensures sid in View().live <==> !services[sid].handle.unsubscribed
    {
      main.InChain(services[sid].handle);
    }

    method RevokeMain(handle: MsgHandle)
      requires Valid() && handle in main.handles && handle.id in View().live
      modifies main`first, main`last, main`calls, main`chain,
               main.handles`unsubscribed, main.handles`prev, main.handles`next
      ensures Valid() && main.handles == old(main.handles) && nested.handles == old(nested.handles)
      ensures View() == old(View()).(live := SubscriptionSpec.Remove(old(View()).live, handle.id))
    {
      hide MsgSubscriptions.View, MsgSubscriptions.Valid, Ids, Lists, Enrolled, Registered, SubscriptionSpec.Remove;
      UnsubscribeMain(handle);
    }

    method TakeHandles(service: MsgServiceHandle, ghost sid: nat) returns (handles: seq<MsgHandle>)
      requires Valid() && sid < |services| && services[sid] == service
      modifies service`handles
      ensures Valid() && forall h :: h in handles ==> h in nested.handles
      ensures Ids(handles) == Spec.Registered(old(View()), sid)
      ensures View() == old(View()).(handles := old(View()).handles - {sid})
    {
      hide MsgSubscriptions.View, MsgSubscriptions.Valid, Ids, Lists, Enrolled, Registered;
      RegisteredAt(sid);
      handles := service.handles;
      Clear(service, sid, main.handles);
    }

    method Detach(service: MsgServiceHandle, ghost sid: nat) returns (handles: seq<MsgHandle>)
      requires Valid() && sid < |services| && services[sid] == service
      requires !service.handle.unsubscribed
      modifies service`handles, main`first, main`last, main`calls, main`chain,
               main.handles`unsubscribed, main.handles`prev, main.handles`next
      ensures Valid() && (forall h :: h in handles ==> h in nested.handles)
      ensures main.handles == old(main.handles)
      ensures var was := old(View());
              && sid in was.live && Ids(handles) == Spec.Registered(was, sid)
              && View() == was.(live := SubscriptionSpec.Remove(was.live, sid), handles := was.handles - {sid})
    {
      hide Valid, View, Ids, SubscriptionSpec.Remove;
      LiveService(sid);
      RegisteredAt(sid);
      RevokeMain(service.handle);
      handles := TakeHandles(service, sid);
    }

    /** The hook of the last revocation stops the service. */
    method Tell(service: MsgServiceHandle)
      requires Valid()
      modifies this`log
      ensures Valid()
      ensures var told := Spec.Log(old(View()), Spec.Closed(service.handle.id));
              View() == if told.live == [] then Spec.Log(told, Spec.Stopped) else told
    {
      hide Valid, View;
      EmptyMain();
      Log(Spec.Closed(service.handle.id));
      if main.first == null {
        Log(Spec.Stopped);
      }
    }

    /** Revoking a service handle revokes what was registered through it before anyone is told. */
    method Close(service: MsgServiceHandle, ghost sid: nat)
      requires Valid() && sid < |services| && services[sid] == service
      modifies this`log, service`handles,
               main`first, main`last, main`calls, main`chain,
               main.handles`unsubscribed, main.handles`prev, main.handles`next,
               nested`first, nested`last, nested`calls, nested`chain,
               nested.handles`unsubscribed, nested.handles`prev, nested.handles`next
      ensures Valid() && View() == Spec.Close(old(View()), sid)
      ensures main.handles == old(main.handles)
    {
      LiveService(sid);
      RegisteredAt(sid);
      assert main != nested;
      hide Valid, View, Spec.Log, Spec.Cascade, SubscriptionSpec.Remove, Ids;
      if service.handle.unsubscribed {
        return;
      }
      var handles := Detach(service, sid);
      Cascade(handles);
      Tell(service);
    }

    /** The first handle in the list and its successor, by number. */
    lemma Front()
      requires Valid()
      ensures main.first == null <==> View().live == []
      ensures main.first != null ==>
        var live := View().live;
        && main.first.id == live[0] < |services| && main.first == main.handles[live[0]]
        && (|live| > 1 ==> live[1] < |main.handles|)
        && main.first.next == if |live| > 1 then main.handles[live[1]] else null
    {
    }

    /** The loop remembers the successor before it revokes a handle. */
    method CloseAll()
      requires Valid()
      modifies this`log, services`handles,
               main`first, main`last, main`calls, main`chain,
               main.handles`unsubscribed, main.handles`prev, main.handles`next,
               nested`first, nested`last, nested`calls, nested`chain,
               nested.handles`unsubscribed, nested.handles`prev, nested.handles`next
      ensures Valid() && View() == Spec.CloseAll(old(View()), |old(View()).live|)
    {
      var handle := main.first;
      while handle != null
        invariant Valid() && handle == main.first
        invariant Spec.CloseAll(View(), |View().live|) == Spec.CloseAll(old(View()), |old(View()).live|)
        decreases |View().live|
      {
        Front();
        Spec.CloseFirst(View());
        var next := handle.next;
        hide Valid, View, Spec.Close;
        Close(services[handle.id], handle.id);
        Front();
        handle := next;
      }
      Front();
    }
  }
}
