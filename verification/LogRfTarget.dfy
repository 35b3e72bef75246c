/** The receiver of live tag events: it logs each of them before handing it to the trackers. */
module LogRfTargets {
  import opened TagLogs
  import opened LogConsumers

  /** The number of events that are not in the log. */
  const UNLOGGED := 0

  class LogRfTarget<M> {
    const log: TagLog<M>
    var trackers: seq<LogConsumer<M>>   // the subscribers behind the registered trackers, in order
    var errors: nat                     // error statuses sent to the trackers

    ghost predicate Valid()
      reads this, log, log.log, log.log.chain
    {
      log.Valid() && forall i, j :: 0 <= i < j < |trackers| ==> trackers[i] != trackers[j]
    }

    constructor (log: TagLog<M>, trackers: seq<LogConsumer<M>>)
      requires log.Valid() && forall i, j :: 0 <= i < j < |trackers| ==> trackers[i] != trackers[j]
      ensures Valid() && this.log == log && this.trackers == trackers && errors == 0
    {
      this.log, this.trackers, this.errors := log, trackers, 0;
    }

    /** Whether a numbered event is in the log already. */
    ghost predicate Recorded(event: Event<M>)
      reads log.log
    {
      event.id != UNLOGGED ==> event in log.log.history
    }

    /** The loop over the trackers. Events are dispatched only after they were logged. */
    method UpdateTagAppearance(event: Event<M>)
      requires Valid() && Recorded(event)
      modifies trackers`received
      ensures forall i :: 0 <= i < |trackers| ==>
                trackers[i].received
                == old(trackers[i].received) + if trackers[i].passthrough then [event] else []
    {
      for k := 0 to |trackers|
        invariant forall i :: 0 <= i < k ==>
                    trackers[i].received
                    == old(trackers[i].received) + if trackers[i].passthrough then [event] else []
        invariant forall i :: k <= i < |trackers| ==> trackers[i].received == old(trackers[i].received)
      {
        trackers[k].MessageReceived(event);
      }
    }

    /** One attempt to log and dispatch a message; `done` is false while the writer has to wait. A
        message that cannot be logged is dispatched nevertheless, as it came, and then reported. */
    method LogTag(message: Message<M>) returns (done: bool, ghost event: Event<M>)
      requires Valid() && log.lastId >= 0
      modifies this`errors, trackers`received,
               log`lastId, log`storedId, log.log`file, log.log`position, log.log`storedPosition, log.log`history
      ensures Valid() && log.View() == LogEvent(log.config, old(log.View()), message)
      ensures event.message == message && Recorded(event)
      ensures Logged(log.config, message) && log.config.fits(message.content) && done ==>
                event.id == old(log.lastId) + 1 && log.log.history == old(log.log.history) + [event]
      ensures !Logged(log.config, message) || !log.config.fits(message.content) ==> done && event.id == UNLOGGED
      ensures forall i :: 0 <= i < |trackers| ==>
                trackers[i].received
                == old(trackers[i].received) + if done && trackers[i].passthrough then [event] else []
      ensures errors == old(errors) + if Logged(log.config, message) && !log.config.fits(message.content) then 1 else 0
    {
      var result;
      done, result := log.LogMessage(message);
      var logged := Event(UNLOGGED, message);
      event := logged;
      if !done {
        return;
      }
      if result.Err? {
        UpdateTagAppearance(logged);
        errors := errors + 1;
        return;
      }
      if result.value.Some? {
        logged := result.value.value;
      }
      event := logged;
      UpdateTagAppearance(logged);
    }
  }
}
