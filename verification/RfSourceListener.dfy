/**
 The status filter of a collector: it passes status updates on, except those that say nothing new, and
 reports the ready status again when data arrives after an error.
 */
module RfSourceListeners {
  import opened Wrappers

  /** An update is a ready or an error status; causes of errors are compared by identity, which is a
      number here. */
  datatype Status = Status(
    error: bool, readerId: Option<string>, errorMessage: Option<string>, cause: Option<nat>)

  /** What the filter compares. */
  predicate Same(a: Status, b: Status) {
    && a.error == b.error
    && (if a.error then a.errorMessage == b.errorMessage && a.cause == b.cause else a.readerId == b.readerId)
  }

  /** `reports` are the statuses sent to the subscribers since the last rejectStatus. */
  datatype Listener = Listener(
    receiving: bool, lastStatus: Option<Status>, lastError: Option<Status>, reports: seq<Status>)

  function Current(s: Listener): Option<Status> {
    if s.lastError.Some? then s.lastError else s.lastStatus
  }

  function Report(s: Listener, status: Status): Listener {
    if s.receiving then s.(reports := s.reports + [status]) else s
  }

  function Update(s: Listener, status: Status): Listener {
    if Current(s).Some? && Same(Current(s).value, status) then s
    else if status.error then Report(s.(lastError := Some(status)), status)
    else Report(s.(lastStatus := Some(status), lastError := None), status)
  }

  function NoError(s: Listener): Listener {
    if s.lastError.None? then s
    else
      var cleared := s.(lastError := None);
      if s.lastStatus.None? then cleared else Report(cleared, s.lastStatus.value)
  }

  const NEW_LISTENER: Listener := Listener(false, None, None, [])

  datatype Call = DoRequest | DoReject | DoUpdate(status: Status) | DoNoError

  function Next(s: Listener, call: Call): Listener {
    match call
    case DoRequest => s.(receiving := true)
    case DoReject => NEW_LISTENER
    case DoUpdate(status) => Update(s, status)
    case DoNoError => NoError(s)
  }

  function Run(calls: seq<Call>): Listener {
    if calls == [] then NEW_LISTENER else Next(Run(calls[..|calls| - 1]), calls[|calls| - 1])
  }

  // ---------------------------------------------------------------- the state by the history of calls

  /** The reader named by the latest ready update since the last rejectStatus. */
  function Reader(calls: seq<Call>): Option<Option<string>> {
    if calls == [] then None
    else
      var before, call := calls[..|calls| - 1], calls[|calls| - 1];
      match call
      case DoReject => None
      case DoUpdate(status) => if status.error then Reader(before) else Some(status.readerId)
      case _ => Reader(before)
  }

  /** The message and cause of the latest error update, unless a ready update, a call of noError or
      rejectStatus came after it. */
  function Failure(calls: seq<Call>): Option<(Option<string>, Option<nat>)> {
    if calls == [] then None
    else
      var before, call := calls[..|calls| - 1], calls[|calls| - 1];
      match call
      case DoRequest => Failure(before)
      case DoUpdate(status) => if status.error then Some((status.errorMessage, status.cause)) else None
      case _ => None
  }

  /** What is remembered is the latest ready reader and the outstanding error, although repeated
      updates are dropped. */
  lemma {:induction false} StateIsHistory(calls: seq<Call>)
    ensures var s := Run(calls);
            && Reader(calls) == (if s.lastStatus.Some? then Some(s.lastStatus.value.readerId) else None)
            && Failure(calls)
              == (if s.lastError.Some? then Some((s.lastError.value.errorMessage, s.lastError.value.cause)) else None)
            && (s.lastStatus.Some? ==> !s.lastStatus.value.error)
            && (s.lastError.Some? ==> s.lastError.value.error)
  {
    if calls != [] {
      StateIsHistory(calls[..|calls| - 1]);
    }
  }

  /** Between requestStatus and rejectStatus, an update is reported exactly if it tells something new:
      an error with another message or cause than the outstanding one, or a ready status of another
      reader than the latest one or while an error is outstanding. */
  lemma ReportedExact(calls: seq<Call>, status: Status)
    requires Run(calls).receiving
    ensures var known := if status.error then Failure(calls) == Some((status.errorMessage, status.cause))
                         else Failure(calls) == None && Reader(calls) == Some(status.readerId);
            Run(calls + [DoUpdate(status)]).reports
              == if known then Run(calls).reports else Run(calls).reports + [status]
  {
    StateIsHistory(calls);
    assert (calls + [DoUpdate(status)])[..|calls|] == calls;
  }

  /** Data arriving after an error brings the ready status of the latest reader back, once. */
  lemma RecoveredExact(calls: seq<Call>)
    requires Run(calls).receiving
    ensures var s, t := Run(calls), Run(calls + [DoNoError]);
            && (Failure(calls).Some? && Reader(calls).Some? <==> t.reports != s.reports)
            && (t.reports != s.reports ==>
                  |t.reports| == |s.reports| + 1 && s.reports == t.reports[..|s.reports|]
                  && !t.reports[|s.reports|].error && Some(t.reports[|s.reports|].readerId) == Reader(calls))
            && Run(calls + [DoNoError, DoNoError]) == t
  {
    StateIsHistory(calls);
    var once, twice := calls + [DoNoError], calls + [DoNoError, DoNoError];
    assert once[..|calls|] == calls && twice[..|calls| + 1] == once;
    var s, t := Run(calls), Run(once);
    assert t.reports != s.reports ==> t.reports == s.reports + [s.lastStatus.value];
  }

  // ---------------------------------------------------------------- the reports of a session

  /** The latest report is the current status, unless it was an error which went away before any
      reader was ready. */
  ghost predicate Faithful(s: Listener) {
    s.reports != [] ==>
      var last := s.reports[|s.reports| - 1];
      Current(s) == Some(last) || (last.error && Current(s) == None)
  }

  lemma {:induction false} LastReport(calls: seq<Call>)
    ensures Faithful(Run(calls))
    ensures Run(calls).reports != [] ==> Run(calls).receiving
  {
    if calls != [] {
      LastReport(calls[..|calls| - 1]);
      StateIsHistory(calls[..|calls| - 1]);
    }
  }

  /** Subscribers are told the same again exactly when an error comes back that went away before any
      reader was ready. */
  lemma RepeatExact(calls: seq<Call>, call: Call)
    requires var s, t := Run(calls), Next(Run(calls), call); s.reports != [] && |t.reports| > |s.reports|
    ensures var s, t := Run(calls), Next(Run(calls), call);
            var last, next := s.reports[|s.reports| - 1], t.reports[|t.reports| - 1];
            Same(last, next) <==> last.error && Current(s) == None && call.DoUpdate? && Same(last, call.status)
  {
    LastReport(calls);
    StateIsHistory(calls);
  }

  /** So it happens that an error is reported twice in a row. */
  lemma ErrorRepeated(e: Status)
    requires e.error
    ensures Run([DoRequest, DoUpdate(e), DoNoError, DoUpdate(e)]).reports == [e, e]
  {
    var calls := [DoRequest, DoUpdate(e), DoNoError, DoUpdate(e)];
    assert calls[..3] == [DoRequest, DoUpdate(e), DoNoError] && calls[..3][..2] == [DoRequest, DoUpdate(e)];
    assert calls[..3][..2][..1] == [DoRequest] && [DoRequest][..0] == [];
    assert Run([DoRequest]) == NEW_LISTENER.(receiving := true);
    assert Run([DoRequest, DoUpdate(e)]) == Listener(true, None, Some(e), [e]);
    assert Run([DoRequest, DoUpdate(e), DoNoError]) == Listener(true, None, None, [e]);
  }

  /** So, whatever is called, no two reports in a row are ready statuses of the same reader. */
  lemma {:induction false} ReadyNotRepeated(calls: seq<Call>, i: nat)
    requires i + 1 < |Run(calls).reports|
    ensures var a, b := Run(calls).reports[i], Run(calls).reports[i + 1];
            a.error || b.error || a.readerId != b.readerId
  {
    var before, call := calls[..|calls| - 1], calls[|calls| - 1];
    if i + 1 < |Run(before).reports| {
      ReadyNotRepeated(before, i);
    } else {
      RepeatExact(before, call);
    }
  }

  // ---------------------------------------------------------------- the listener

  class RfSourceListener {
    var receivingStatus: bool
    var lastStatus: Option<Status>
    var lastError: Option<Status>
    var reports: seq<Status>    // what the collector's subscribers were sent

    /** The fields hold statuses of their kinds, as they do after any calls. */
    ghost predicate Valid()
      reads this
    {
      (lastStatus.Some? ==> !lastStatus.value.error) && (lastError.Some? ==> lastError.value.error)
    }

    ghost function View(): Listener
      reads this
    {
      Listener(receivingStatus, lastStatus, lastError, reports)
    }

    constructor ()
      ensures Valid() && View() == NEW_LISTENER
    {
      receivingStatus, lastStatus, lastError, reports := false, None, None, [];
    }

    method RequestStatus()
      requires Valid()
      modifies this
      ensures Valid() && View() == Next(old(View()), DoRequest)
    {
      receivingStatus := true;
    }

    method RejectStatus()
      requires Valid()
      modifies this
      ensures Valid() && View() == Next(old(View()), DoReject)
    {
      lastError := None;
      lastStatus := None;
      receivingStatus := false;
      reports := [];
    }

    method ReportStatus(status: Status)
      modifies this`reports
      ensures View() == Report(old(View()), status)
    {
      if !receivingStatus {
        return;
      }
      reports := reports + [status];
    }

    method UpdateStatus(status: Status)
      requires Valid()
      modifies this
      ensures Valid() && View() == Next(old(View()), DoUpdate(status))
    {
      var news := SetStatus(status);
      if !news {
        return;
      }
      ReportStatus(status);
    }

    method SetStatus(status: Status) returns (news: bool)
      requires Valid()
      modifies this`lastStatus, this`lastError
      ensures Valid()
      ensures news <==> Current(old(View())) == None || !Same(Current(old(View())).value, status)
      ensures View() == if !news then old(View())
                        else if status.error then old(View()).(lastError := Some(status))
                        else old(View()).(lastStatus := Some(status), lastError := None)
    {
      if status.error {
        news := SetError(status);
        return;
      }
      if lastError.Some? {
        lastError := None;
        lastStatus := Some(status);
        return true;
      }
      if lastStatus.None? {
        lastStatus := Some(status);
        return true;
      }
      if lastStatus.value.readerId != status.readerId {
        lastStatus := Some(status);
        return true;
      }
      return false;
    }

    method SetError(error: Status) returns (news: bool)
      requires Valid() && error.error
      modifies this`lastError
      ensures news <==> old(lastError) == None || !Same(old(lastError).value, error)
      ensures lastError == if news then Some(error) else old(lastError)
    {
      if lastError.None? {
        lastError := Some(error);
        return true;
      }
      if lastError.value.errorMessage != error.errorMessage {
        lastError := Some(error);
        return true;
      }
      if lastError.value.cause != error.cause {
        lastError := Some(error);
        return true;
      }
      return false;
    }

    method NoError()
      requires Valid()
      modifies this
      ensures Valid() && View() == Next(old(View()), DoNoError)
    {
      var last: Option<Status>;
      if lastError.None? {
        last := None;
      } else {
        lastError := None;
        last := lastStatus;
      }
      if last.Some? {
        ReportStatus(last.value);
      }
    }

    /** What a new subscriber is told: the current status, but never an error. */
    method LastStatus() returns (status: Option<Status>)
      requires Valid()
      ensures status == if Current(View()).Some? && !Current(View()).value.error then Current(View()) else None
    {
      if lastError.Some? {
        return None;
      }
      return lastStatus;
    }
  }
}
