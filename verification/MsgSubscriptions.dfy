/**
 The list of subscriptions as linked handles. A handle's number stands for it and its consumer in
 the record of callbacks. Locks are left out: each method is one atomic step.
 */
module MsgSubscriptionLists {
  import Spec = SubscriptionSpec

  class MsgHandle {
    const id: nat
    var unsubscribed: bool
    var prev: MsgHandle?
    var next: MsgHandle?

    constructor (id: nat)
      ensures this.id == id && !unsubscribed && prev == null && next == null
    {
      this.id, unsubscribed, prev, next := id, false, null, null;
    }

    method AddNext(next: MsgHandle)
      modifies this`next, next`prev
      ensures this.next == next && next.prev == this
    {
      this.next := next;
      next.prev := this;
    }

    method Revoke(ghost chain: seq<MsgHandle>, ghost handles: seq<MsgHandle>, ghost i: nat)
      requires Numbered(chain, handles) && Distinct(chain) && i < |chain| && chain[i] == this && this in handles
      modifies this`unsubscribed
      ensures unsubscribed && Numbered(Without(chain, i), handles)
    {
      unsubscribed := true;
      assert forall h :: h in Without(chain, i) <==> h in chain && h != this;
    }

    method Remove(ghost chain: seq<MsgHandle>, ghost i: nat)
      requires Linked(chain) && i < |chain| && chain[i] == this
      modifies chain`prev, chain`next
      ensures Linked(Without(chain, i)) && prev == null && next == null
    {
      var prev, next := this.prev, this.next;
      this.prev := null;
      this.next := null;
      if prev != null {
        prev.next := next;
      }
      if next != null {
        next.prev := prev;
      }
      ghost var rest := Without(chain, i);
      assert forall j :: 0 <= j < |rest| ==> rest[j] == chain[if j < i then j else j + 1];
      forall j | 0 <= j < |rest|
        ensures rest[j].prev == if j == 0 then null else rest[j - 1]
        ensures rest[j].next == if j == |rest| - 1 then null else rest[j + 1]
      {
        assert rest[j] == chain[j] || rest[j] == chain[j + 1];
      }
    }
  }

  ghost predicate Distinct(chain: seq<MsgHandle>) {
    forall i, j :: 0 <= i < j < |chain| ==> chain[i] != chain[j]
  }

  ghost predicate Linked(chain: seq<MsgHandle>)
    reads chain`prev, chain`next
  {
    && Distinct(chain)
    && (forall i {:trigger chain[i].prev} :: 0 <= i < |chain| ==>
          chain[i].prev == if i == 0 then null else chain[i - 1])
    && (forall i {:trigger chain[i].next} :: 0 <= i < |chain| ==>
          chain[i].next == if i == |chain| - 1 then null else chain[i + 1])
  }

  function Ids(chain: seq<MsgHandle>): (ids: seq<nat>)
    ensures |ids| == |chain| && forall i :: 0 <= i < |chain| ==> ids[i] == chain[i].id
  {
    seq(|chain|, i requires 0 <= i < |chain| => chain[i].id)
  }

  function Without<X>(s: seq<X>, i: nat): seq<X>
    requires i < |s|
  {
    s[..i] + s[i + 1..]
  }

  lemma {:induction false} RemoveById(chain: seq<MsgHandle>, i: nat)
    requires i < |chain| && forall j :: 0 <= j < i ==> chain[j].id != chain[i].id
    ensures Spec.Remove(Ids(chain), chain[i].id) == Ids(Without(chain, i))
  {
    if i == 0 {
      assert Ids(chain)[1..] == Ids(chain[1..]) == Ids(Without(chain, 0));
    } else {
      assert Ids(chain)[1..] == Ids(chain[1..]);
      RemoveById(chain[1..], i - 1);
      assert Without(chain, i) == [chain[0]] + Without(chain[1..], i - 1);
    }
  }

  /** `handles` are all handles by number; those in the chain are the ones not revoked. */
  ghost predicate Numbered(chain: seq<MsgHandle>, handles: seq<MsgHandle>)
    reads handles`unsubscribed
  {
    && (forall i :: 0 <= i < |handles| ==> handles[i].id == i)
    && (forall i :: 0 <= i < |chain| ==> chain[i].id < |handles| && handles[chain[i].id] == chain[i])
    && (forall i :: 0 <= i < |handles| ==> (handles[i].unsubscribed <==> handles[i] !in chain))
  }

  lemma NumberedAppend(chain: seq<MsgHandle>, handles: seq<MsgHandle>, handle: MsgHandle)
    requires Numbered(chain, handles) && handle.id == |handles| && !handle.unsubscribed && handle !in handles
    ensures Numbered(chain + [handle], handles + [handle])
    ensures handle !in chain
  {
  }

  class MsgSubscriptions<M> {
    var first: MsgHandle?
    var last: MsgHandle?
    var created: nat                    // numbers the handles
    var calls: seq<Spec.Call<M>>
    ghost var chain: seq<MsgHandle>     // the live handles
    ghost var handles: seq<MsgHandle>   // all handles ever created, by number

    ghost predicate Valid()
      reads this`first, this`last, this`created, this`handles, this`chain, handles`unsubscribed, chain`prev, chain`next
    {
      created == |handles| && Chained() && Numbered(chain, handles)
    }

    ghost predicate Chained()
      reads this`first, this`last, this`chain, chain`prev, chain`next
    {
      && Linked(chain)
      && first == (if chain == [] then null else chain[0])
      && last == (if chain == [] then null else chain[|chain| - 1])
    }

    ghost function View(): Spec.Subscriptions<M>
      reads this`handles, this`chain, this`calls
    {
      Spec.Subscriptions(|handles|, Ids(chain), calls)
    }

    constructor ()
      ensures Valid() && handles == [] && View() == Spec.Empty()
    {
      first, last, created, calls, chain, handles := null, null, 0, [], [], [];
    }

    method Subscribe() returns (handle: MsgHandle)
      requires Valid()
      modifies this, (if last == null then {} else {last})`next
      ensures Valid() && fresh(handle) && handle.id == old(created)
      ensures View() == Spec.Subscribe(old(View()))
      ensures handles == old(handles) + [handle] && chain == old(chain) + [handle]
    {
      hide Linked, Numbered, Ids;
      handle := NewHandle();
      calls := calls + [Spec.Subscribed(handle.id, first == null)];
      Append(handle);
    }

    method NewHandle() returns (handle: MsgHandle)
      requires Valid()
      modifies this`created, this`handles
      ensures fresh(handle) && handle.prev == null && handle.next == null && handle !in chain
      ensures handle.id == old(created) && created == old(created) + 1
      ensures handles == old(handles) + [handle] && Numbered(chain + [handle], handles)
    {
      handle := new MsgHandle(created);
      created := created + 1;
      NumberedAppend(chain, handles, handle);
      handles := handles + [handle];
    }

    method Append(handle: MsgHandle)
      requires Chained() && handle !in chain && handle.prev == null && handle.next == null
      modifies this`first, this`last, this`chain, (if last == null then {} else {last})`next, handle`prev
      ensures Chained() && chain == old(chain) + [handle]
      ensures Ids(chain) == old(Ids(chain)) + [handle.id]
    {
      if first == null {
        first := handle;
        last := handle;
      } else {
        last.AddNext(handle);
        last := handle;
      }
      chain := chain + [handle];
    }

    method Note(call: Spec.Call<M>)
      modifies this`calls
      ensures View() == old(View()).(calls := old(View()).calls + [call])
    {
      calls := calls + [call];
    }

    /** MsgHandle.unsubscribe: only the first call does anything. */
    method Unsubscribe(handle: MsgHandle)
      requires Valid() && handle in handles
      modifies this`first, this`last, this`calls, this`chain, handles`unsubscribed, handles`prev, handles`next
      ensures Valid() && handles == old(handles) && handle.unsubscribed
      ensures View() == Spec.Unsubscribe(old(View()), handle.id)
    {
      hide Valid, View, Spec.Remove;
      InChain(handle);
      if handle.unsubscribed {
        return;
      }
      Detach(handle);
      EmptyFirst();
      Note(Spec.Unsubscribed(handle.id, first == null));
    }

    lemma EmptyFirst()
      requires Valid()
      ensures first == null <==> View().live == []
    {
    }

    /** A handle is live exactly if its number is listed. */
    lemma InChain(handle: MsgHandle)
      requires Valid() && handle in handles
      ensures handle in chain <==> handle.id in View().live
      ensures handle in chain <==> !handle.unsubscribed
    {
    }

    lemma ChainInHandles()
      requires Valid()
      ensures forall h :: h in chain ==> h in handles
    {
    }

    lemma Position(handle: MsgHandle) returns (i: nat)
      requires Valid() && handle in chain
      ensures created == |handles| && Chained() && Numbered(chain, handles)
      ensures View() == Spec.Subscriptions(|handles|, Ids(chain), calls)
      ensures i < |chain| && chain[i] == handle && Distinct(chain)
      ensures forall k :: 0 <= k < |chain| ==> chain[k] in handles
      ensures Spec.Remove(Ids(chain), handle.id) == Ids(Without(chain, i))
    {
      i :| 0 <= i < |chain| && chain[i] == handle;
      RemoveById(chain, i);
    }

    method Detach(handle: MsgHandle)
      requires Valid() && handle in handles && handle in chain
      modifies this`first, this`last, this`chain, handles`unsubscribed, handles`prev, handles`next
      ensures Valid() && handles == old(handles) && handle.unsubscribed
      ensures View() == old(View()).(live := Spec.Remove(old(View()).live, handle.id))
    {
      hide *;
      ghost var was := View();
      ghost var i := Position(handle);
      handle.Revoke(chain, handles, i);
      Unlink(handle, i);
      ValidAgain(was);
    }

    lemma ValidAgain(was: Spec.Subscriptions<M>)
      requires created == |handles| && Chained() && Numbered(chain, handles)
      ensures Valid()
      ensures was.created == |handles| && was.calls == calls ==> View() == was.(live := Ids(chain))
    {
    }

    /** The ends of the list without handle number `i`. */
    lemma EndsWithout(i: nat)
      requires Chained() && i < |chain|
      ensures Linked(chain)
      ensures chain[i] == first <==> i == 0
      ensures chain[i] == last <==> i == |chain| - 1
      ensures var rest := Without(chain, i);
              && (if i == 0 then chain[i].next else first) == (if rest == [] then null else rest[0])
              && (if i == |chain| - 1 then chain[i].prev else last)
                 == (if rest == [] then null else rest[|rest| - 1])
    {
    }

    method Unlink(handle: MsgHandle, ghost i: nat)
      requires Chained() && i < |chain| && chain[i] == handle
      requires forall k :: 0 <= k < |chain| ==> chain[k] in handles
      modifies this`first, this`last, this`chain, handles`prev, handles`next
      ensures Chained() && chain == Without(old(chain), i)
    {
      hide *;
      EndsWithout(i);
      if first == handle {
        first := handle.next;
      }
      if last == handle {
        last := handle.prev;
      }
      handle.Remove(chain, i);
      chain := Without(chain, i);
      ChainedBy(chain);
    }

    lemma ChainedBy(rest: seq<MsgHandle>)
      requires chain == rest && Linked(rest)
      requires first == (if rest == [] then null else rest[0])
      requires last == (if rest == [] then null else rest[|rest| - 1])
      ensures Chained()
    {
    }

    /** The loop remembers the successor before it revokes a handle. */
    method UnsubscribeAll()
      requires Valid()
      modifies this`first, this`last, this`calls, this`chain, handles`unsubscribed, handles`prev, handles`next
      ensures Valid() && handles == old(handles) && View() == Spec.UnsubscribeAll(old(View()))
    {
      var handle := first;
      while handle != null
        invariant Valid() && handles == old(handles) && handle == first
        invariant Spec.UnsubscribeAll(View()) == Spec.UnsubscribeAll(old(View()))
        decreases |chain|
      {
        var next := handle.next;
        FirstOut(handle);
        Unsubscribe(handle);
        handle := next;
      }
    }

    lemma FirstOut(handle: MsgHandle)
      requires Valid() && handle == first && chain != []
      ensures handle in handles && handle.id == Ids(chain)[0] && !handle.unsubscribed
      ensures Spec.Remove(Ids(chain), handle.id) == Ids(chain)[1..] == Ids(chain[1..])
    {
    }

    ghost function At(i: nat): MsgHandle?
      reads this`chain
    {
      if i < |chain| then chain[i] else null
    }

    lemma Successor(i: nat, message: M)
      requires Valid()
      ensures first == At(0) && |View().live| == |chain|
      ensures i < |chain| ==> chain[i].next == At(i + 1)
      ensures i < |chain| ==>
        var all := Spec.Receptions(View().live, message);
        all[..i + 1] == all[..i] + [Spec.Received(chain[i].id, message)]
    {
    }

    /** The loop along the chain. */
    method SendMessage(message: M)
      requires Valid()
      modifies this`calls
      ensures Valid() && View() == Spec.Send(old(View()), message)
    {
      hide Valid, View, Spec.Receptions;
      var handle := first;
      ghost var i: nat, was := 0, View();
      Successor(0, message);
      while handle != null
        invariant i <= |chain| && handle == At(i)
        invariant View() == was.(calls := was.calls + Spec.Receptions(was.live, message)[..i])
        decreases |chain| - i
      {
        Successor(i, message);
        Note(Spec.Received(handle.id, message));
        handle := handle.next;
        i := i + 1;
      }
    }
  }
}
