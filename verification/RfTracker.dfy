/**
 The tracker of tag presence as a value: a cache of the tags read, with the time each was last
 read. Tags not read for long enough are dropped when a reading transaction ends or times out.
 */
module RfTrackerSpec {
  import opened Wrappers
  import opened IntSets

  datatype Presence = Presence(lastAppearance: int, antennas: IntSet)

  datatype Message<Tag> = Message(timestamp: int, tag: Option<Tag>, antennaId: int,
                                  transactionId: int, transactionEnd: bool)

  /** What one call reports: at most one appearance first, then disappearances in any order. */
  datatype Output<Tag> = Output(appeared: Option<(Tag, IntSet)>, disappeared: map<Tag, Presence>)

  datatype Tracker<Tag> = Tracker(
    tags: map<Tag, Presence>,
    transactionTimeout: int,
    invalidationTimeout: int,
    started: bool,            // a transaction is running
    transactionId: int,
    transactionStart: int,
    lastTimestamp: int,
    localTimeDiff: int
  )

  // ---------------------------------------------------------------- steps

  predicate IsObsolete(p: Presence, timestamp: int, timeout: int) {
    timestamp - p.lastAppearance >= timeout
  }

  function Obsolete<Tag>(tags: map<Tag, Presence>, timestamp: int, timeout: int): map<Tag, Presence> {
    map t | t in tags && IsObsolete(tags[t], timestamp, timeout) :: tags[t]
  }

  function Fresh<Tag>(tags: map<Tag, Presence>, timestamp: int, timeout: int): map<Tag, Presence> {
    map t | t in tags && !IsObsolete(tags[t], timestamp, timeout) :: tags[t]
  }

  /** The entry of a tag after one more read of it. */
  function Reread(last: Option<Presence>, timestamp: int, antennaId: int): Presence {
    var antennas := Singleton(antennaId);
    match last
    case None => Presence(timestamp, antennas)
    case Some(p) =>
      if p.lastAppearance > timestamp then Presence(p.lastAppearance, Union(p.antennas, antennas))
      else Presence(timestamp, Union(antennas, p.antennas))
  }

  function Lookup<Tag>(tags: map<Tag, Presence>, tag: Tag): Option<Presence> {
    if tag in tags then Some(tags[tag]) else None
  }

  predicate TransactionChanged<Tag>(s: Tracker<Tag>, m: Message<Tag>) {
    s.started &&
    (s.transactionId != m.transactionId || m.timestamp - s.transactionStart >= s.transactionTimeout)
  }

  /** The cache after the check made when a message changes the transaction. */
  function Checked<Tag>(s: Tracker<Tag>, m: Message<Tag>): map<Tag, Presence> {
    if TransactionChanged(s, m) then Fresh(s.tags, m.timestamp, s.invalidationTimeout) else s.tags
  }

  /** The cache after the message's own tag was entered. */
  function Cached<Tag>(s: Tracker<Tag>, m: Message<Tag>): map<Tag, Presence> {
    var tags := Checked(s, m);
    if m.tag.None? then tags
    else tags[m.tag.value := Reread(Lookup(tags, m.tag.value), m.timestamp, m.antennaId)]
  }

  /** What the check made when a message changes the transaction has to report. */
  function AtChange<Tag>(s: Tracker<Tag>, m: Message<Tag>): map<Tag, Presence> {
    if !TransactionChanged(s, m) then map[]
    else Obsolete(s.tags, m.timestamp, s.invalidationTimeout) - (if m.tag.Some? then {m.tag.value} else {})
  }

  function DataOutput<Tag>(s: Tracker<Tag>, m: Message<Tag>): Output<Tag> {
    var atEnd :=
      if m.transactionEnd then Obsolete(Cached(s, m), m.timestamp, s.invalidationTimeout) else map[];
    Output(if m.tag.Some? && m.tag.value !in Checked(s, m)
           then Some((m.tag.value, Singleton(m.antennaId))) else None,
           AtChange(s, m) + atEnd)
  }

  function DataState<Tag>(s: Tracker<Tag>, m: Message<Tag>, now: int): Tracker<Tag> {
    var restarts := !s.started || TransactionChanged(s, m) || m.transactionEnd;
    s.(tags := if m.transactionEnd then Fresh(Cached(s, m), m.timestamp, s.invalidationTimeout)
               else Cached(s, m),
       started := true,
       transactionId := if restarts then m.transactionId else s.transactionId,
       transactionStart := if restarts then m.timestamp else s.transactionStart,
       lastTimestamp := if m.timestamp > s.lastTimestamp then m.timestamp else s.lastTimestamp,
       localTimeDiff := if m.timestamp > s.lastTimestamp then now - m.timestamp else s.localTimeDiff)
  }

  /** The timer's check. */
  function TickState<Tag>(s: Tracker<Tag>, now: int): Tracker<Tag> {
    s.(tags := Fresh(s.tags, now - s.localTimeDiff, s.invalidationTimeout))
  }

  function TickOutput<Tag>(s: Tracker<Tag>, now: int): Output<Tag> {
    Output(None, Obsolete(s.tags, now - s.localTimeDiff, s.invalidationTimeout))
  }

  datatype Step<Tag> = Data(message: Message<Tag>, now: int) | Tick(now: int) | Stop

  function Next<Tag>(s: Tracker<Tag>, step: Step<Tag>): Tracker<Tag> {
    match step
    case Data(m, now) => DataState(s, m, now)
    case Tick(now) => TickState(s, now)
    case Stop => s.(started := false)
  }

  function OutputOf<Tag>(s: Tracker<Tag>, step: Step<Tag>): Output<Tag> {
    match step
    case Data(m, now) => DataOutput(s, m)
    case Tick(now) => TickOutput(s, now)
    case Stop => Output(None, map[])
  }

  function Run<Tag>(s: Tracker<Tag>, steps: seq<Step<Tag>>): Tracker<Tag> {
    if steps == [] then s else Next(Run(s, steps[..|steps| - 1]), steps[|steps| - 1])
  }

  // ---------------------------------------------------------------- events seen by a listener

  ghost function AppearedTags<Tag>(o: Output<Tag>): set<Tag> {
    if o.appeared.Some? then {o.appeared.value.0} else {}
  }

  /** The tags a listener takes for visible after one more call. */
  ghost function SeenAfter<Tag>(seen: set<Tag>, o: Output<Tag>): set<Tag> {
    (seen + AppearedTags(o)) - o.disappeared.Keys
  }

  ghost function Seen<Tag>(s: Tracker<Tag>, steps: seq<Step<Tag>>): set<Tag> {
    if steps == [] then s.tags.Keys
    else
      var before := steps[..|steps| - 1];
      SeenAfter(Seen(s, before), OutputOf(Run(s, before), steps[|steps| - 1]))
  }

  /** A message reports a tag as appeared that it has not reported as disappeared. */
  ghost predicate Redundant<Tag>(s: Tracker<Tag>, step: Step<Tag>) {
    && step.Data? && step.message.tag.Some? && step.message.tag.value in s.tags
    && var m, last := step.message, s.tags[step.message.tag.value].lastAppearance;
       && s.started && (m.transactionId != s.transactionId || m.timestamp - s.transactionStart >= s.transactionTimeout)
       && m.timestamp - last >= s.invalidationTimeout
  }

  /** One step: the events turn the key set of the cache into the new one; only visible tags
      disappear; and an appearance repeats a visible tag exactly when the message that changes the
      transaction reads a tag that is obsolete at that moment. */
  lemma StepEvents<Tag>(s: Tracker<Tag>, step: Step<Tag>)
    ensures SeenAfter(s.tags.Keys, OutputOf(s, step)) == Next(s, step).tags.Keys
    ensures OutputOf(s, step).disappeared.Keys <= s.tags.Keys + AppearedTags(OutputOf(s, step))
    ensures AppearedTags(OutputOf(s, step)) * s.tags.Keys != {} <==> Redundant(s, step)
  {
    if step.Data? {
      var m := step.message;
      if m.tag.Some? {
        var t := m.tag.value;
        assert Redundant(s, step) <==> t in s.tags && t !in Checked(s, m);
        assert t in s.tags && t !in Checked(s, m) ==> t in AppearedTags(OutputOf(s, step)) * s.tags.Keys;
      }
    }
  }

  /** Over any run from any cache: the listener's view is the cache's key set, nothing invisible
      disappears, and redundant appearances are exactly the ones described. */
  lemma {:induction false} CacheIsEventHistory<Tag>(s: Tracker<Tag>, steps: seq<Step<Tag>>, step: Step<Tag>)
    ensures Seen(s, steps) == Run(s, steps).tags.Keys
    ensures OutputOf(Run(s, steps), step).disappeared.Keys
         <= Seen(s, steps) + AppearedTags(OutputOf(Run(s, steps), step))
    ensures AppearedTags(OutputOf(Run(s, steps), step)) * Seen(s, steps) != {}
       <==> Redundant(Run(s, steps), step)
  {
    if steps != [] {
      var before := steps[..|steps| - 1];
      CacheIsEventHistory(s, before, step);
      StepEvents(Run(s, before), steps[|steps| - 1]);
    }
    StepEvents(Run(s, steps), step);
  }

  /** So it happens: a message of a new transaction reads a tag that is too old by then. */
  lemma RedundantAppearance()
    ensures var s := Tracker(map['t' := Presence(0, EMPTY)], 10, 100, true, 1, 0, 0, 0);
            var step := Data(Message(100, Some('t'), 0, 2, false), 100);
            && OutputOf(s, step).appeared == Some(('t', Singleton(0))) && 't' in s.tags
            && OutputOf(s, step).disappeared == map[]
  {
  }

  /** The time of the check that a step makes last: at a tick, when a message ends the transaction, and
      when it changes the transaction. */
  function CheckTime<Tag>(s: Tracker<Tag>, step: Step<Tag>): Option<int> {
    match step
    case Data(m, _) =>
      if || m.transactionEnd
         || (s.started && m.transactionId != s.transactionId)
         || (s.started && m.timestamp - s.transactionStart >= s.transactionTimeout)
      then Some(m.timestamp) else None
    case Tick(now) => Some(now - s.localTimeDiff)
    case Stop => None
  }

  /** The entry of a tag when a step checks it: the message's own tag is read before, unless only a
      change of the transaction is checked, which sees the old entry. */
  function CheckedEntry<Tag>(s: Tracker<Tag>, step: Step<Tag>, t: Tag): Option<Presence> {
    if step.Data? && step.message.transactionEnd && step.message.tag == Some(t)
    then Lookup(Cached(s, step.message), t) else Lookup(s.tags, t)
  }

  /** A step that checks at time `now` reports as disappeared exactly the tags aged at least the timeout,
      except that a tag which the message reads is reported only by the check at the transaction's end.
      It leaves none of that age, but for the tag it reads when only a change of the transaction is
      checked, whose age is 0 at most; a step that does not check drops nothing. */
  lemma ChecksAreExact<Tag>(s: Tracker<Tag>, step: Step<Tag>, t: Tag)
    ensures var read := step.Data? && step.message.tag == Some(t);
            var entry := CheckedEntry(s, step, t);
            match CheckTime(s, step)
            case None => OutputOf(s, step).disappeared == map[] && s.tags.Keys <= Next(s, step).tags.Keys
            case Some(now) =>
              && (t in OutputOf(s, step).disappeared
                  <==> && entry.Some? && IsObsolete(entry.value, now, s.invalidationTimeout)
                       && (read ==> step.message.transactionEnd))
              && (t in Next(s, step).tags && !read ==>
                    !IsObsolete(Next(s, step).tags[t], now, s.invalidationTimeout))
              && (t in Next(s, step).tags && read ==>
                    if step.message.transactionEnd
                    then !IsObsolete(Next(s, step).tags[t], now, s.invalidationTimeout)
                    else Next(s, step).tags[t].lastAppearance >= now)
  {
  }

  // ---------------------------------------------------------------- the reads behind an entry

  datatype Scan = Scan(timestamp: int, antennaId: int)

  /** The reads of every cached tag since it was last reported as appeared. */
  ghost function ScansAfter<Tag>(scans: map<Tag, seq<Scan>>, step: Step<Tag>, o: Output<Tag>): map<Tag, seq<Scan>> {
    var entered :=
      if step.Data? && step.message.tag.Some? then
        var t, r := step.message.tag.value, Scan(step.message.timestamp, step.message.antennaId);
        scans[t := if o.appeared.Some? || t !in scans then [r] else scans[t] + [r]]
      else scans;
    entered - o.disappeared.Keys
  }

  ghost function Scans<Tag>(s: Tracker<Tag>, steps: seq<Step<Tag>>): map<Tag, seq<Scan>> {
    if steps == [] then map[]
    else
      var before := steps[..|steps| - 1];
      ScansAfter(Scans(s, before), steps[|steps| - 1], OutputOf(Run(s, before), steps[|steps| - 1]))
  }

  ghost function LatestTime(scans: seq<Scan>): int
    requires scans != []
  {
    if |scans| == 1 then scans[0].timestamp
    else
      var rest, last := LatestTime(scans[..|scans| - 1]), scans[|scans| - 1].timestamp;
      if rest > last then rest else last
  }

  /** An entry tells the latest time and the union of the antennas of some reads. */
  ghost predicate Sums(p: Presence, scans: seq<Scan>) {
    && scans != []
    && p.lastAppearance == LatestTime(scans)
    && (forall v: int :: Contains(p.antennas, v)
          <==> 0 <= v <= 31 && exists i :: 0 <= i < |scans| && scans[i].antennaId == v)
  }

  lemma {:induction false} LatestIsMaximum(scans: seq<Scan>)
    requires scans != []
    ensures forall i :: 0 <= i < |scans| ==> scans[i].timestamp <= LatestTime(scans)
    ensures exists i :: 0 <= i < |scans| && scans[i].timestamp == LatestTime(scans)
  {
    assert scans[|scans| - 1].timestamp <= LatestTime(scans);
    if |scans| == 1 || scans[|scans| - 1].timestamp == LatestTime(scans) {
      assert scans[|scans| - 1].timestamp == LatestTime(scans);
    }
    if |scans| > 1 {
      var rest := scans[..|scans| - 1];
      LatestIsMaximum(rest);
      var i :| 0 <= i < |rest| && rest[i].timestamp == LatestTime(rest);
      assert scans[i].timestamp == LatestTime(rest);
    }
  }

  lemma RereadSums(last: Option<Presence>, scans: seq<Scan>, timestamp: int, antennaId: int)
    requires if last.None? then scans == [] else Sums(last.value, scans)
    ensures Sums(Reread(last, timestamp, antennaId), scans + [Scan(timestamp, antennaId)])
  {
    var all := scans + [Scan(timestamp, antennaId)];
    assert all[..|all| - 1] == scans;
    assert all[|scans|].antennaId == antennaId;
    forall v: int
      ensures Contains(Reread(last, timestamp, antennaId).antennas, v)
         <==> 0 <= v <= 31 && exists i :: 0 <= i < |all| && all[i].antennaId == v
    {
      SingletonContains(antennaId, v);
      if exists i :: 0 <= i < |scans| && scans[i].antennaId == v {
        var i :| 0 <= i < |scans| && scans[i].antennaId == v;
        assert all[i].antennaId == v;
      }
    }
  }

  ghost predicate AllSum<Tag>(tags: map<Tag, Presence>, scans: map<Tag, seq<Scan>>) {
    tags.Keys == scans.Keys && forall t :: t in tags ==> Sums(tags[t], scans[t])
  }

  lemma EnteredSum<Tag>(s: Tracker<Tag>, scans: map<Tag, seq<Scan>>, m: Message<Tag>, t: Tag)
    requires AllSum(s.tags, scans) && m.tag == Some(t)
    ensures var scan := Scan(m.timestamp, m.antennaId);
            var known := t in Checked(s, m);
            && (known ==> t in scans)
            && Sums(Cached(s, m)[t], if known then scans[t] + [scan] else [scan])
  {
    var last := Lookup(Checked(s, m), t);
    RereadSums(last, if last.None? then [] else scans[t], m.timestamp, m.antennaId);
    assert [] + [Scan(m.timestamp, m.antennaId)] == [Scan(m.timestamp, m.antennaId)];
  }

  /** An entry changes only by a read of its tag. */
  lemma NextEntries<Tag>(s: Tracker<Tag>, step: Step<Tag>)
    ensures var read := if step.Data? then step.message.tag else None;
            forall t :: t in Next(s, step).tags ==>
              if read == Some(t) then Next(s, step).tags[t] == Cached(s, step.message)[t]
              else t in s.tags && Next(s, step).tags[t] == s.tags[t]
    ensures step.Data? ==> Checked(s, step.message).Keys <= s.tags.Keys
  {
    hide Reread, IsObsolete, TransactionChanged;
  }

  lemma AppearsIfNew<Tag>(s: Tracker<Tag>, step: Step<Tag>)
    ensures AppearedTags(OutputOf(s, step))
         == if step.Data? && step.message.tag.Some? && step.message.tag.value !in Checked(s, step.message)
            then {step.message.tag.value} else {}
  {
    hide Checked, Cached, AtChange, Obsolete;
  }

  lemma StepScans<Tag>(s: Tracker<Tag>, scans: map<Tag, seq<Scan>>, step: Step<Tag>)
    requires AllSum(s.tags, scans)
    ensures AllSum(Next(s, step).tags, ScansAfter(scans, step, OutputOf(s, step)))
  {
    hide Next, OutputOf, Redundant, Cached, Checked, Sums, TransactionChanged, Obsolete, Fresh;
    StepEvents(s, step);
    NextEntries(s, step);
    AppearsIfNew(s, step);
    if step.Data? && step.message.tag.Some? {
      EnteredSum(s, scans, step.message, step.message.tag.value);
    }
  }

  /** Over any run from an empty cache, out-of-order reads included: the time kept for a tag is the
      maximum, and its antennas the union, of all its reads since it last appeared. */
  lemma {:induction false} EntriesSumScans<Tag>(s: Tracker<Tag>, steps: seq<Step<Tag>>)
    requires s.tags == map[]
    ensures AllSum(Run(s, steps).tags, Scans(s, steps))
  {
    if steps != [] {
      var before := steps[..|steps| - 1];
      EntriesSumScans(s, before);
      StepScans(Run(s, before), Scans(s, before), steps[|steps| - 1]);
    }
  }

  // ---------------------------------------------------------------- transactions by their messages

  /** The message that opened the running transaction, if one is running: the latest that found none
      running, ended one, had another id than its opening message, or came a timeout after it. */
  ghost function Opening<Tag>(steps: seq<Step<Tag>>, timeout: int): Option<Message<Tag>> {
    if steps == [] then None
    else
      var before, step := Opening(steps[..|steps| - 1], timeout), steps[|steps| - 1];
      match step
      case Data(m, _) =>
        if || before.None? || m.transactionEnd
           || m.transactionId != before.value.transactionId || m.timestamp - before.value.timestamp >= timeout
        then Some(m) else before
      case Tick(_) => before
      case Stop => None
  }

  /** The message whose time is the newest, the earliest of several. */
  ghost predicate IsNewest<Tag>(steps: seq<Step<Tag>>, k: int) {
    && 0 <= k < |steps| && steps[k].Data?
    && forall j :: 0 <= j < |steps| && steps[j].Data? ==>
         && steps[j].message.timestamp <= steps[k].message.timestamp
         && (j < k ==> steps[j].message.timestamp < steps[k].message.timestamp)
  }

  /** Over any run, the tracker knows the transaction by the message that opened it. */
  lemma {:induction false} OpeningExact<Tag>(s: Tracker<Tag>, steps: seq<Step<Tag>>)
    requires !s.started
    ensures var u, opening := Run(s, steps), Opening(steps, s.transactionTimeout);
            && u.transactionTimeout == s.transactionTimeout && u.invalidationTimeout == s.invalidationTimeout
            && (u.started <==> opening.Some?)
            && (u.started ==> u.transactionId == opening.value.transactionId
                              && u.transactionStart == opening.value.timestamp)
  {
    if steps != [] {
      OpeningExact(s, steps[..|steps| - 1]);
    }
  }

  /** Over any run, the tracker's clock is off by what it was at the arrival of the newest message; until a
      message is newer than `lastTimestamp` it stays as it was. */
  lemma {:induction false} ClockExact<Tag>(s: Tracker<Tag>, steps: seq<Step<Tag>>, k: int)
    ensures var u := Run(s, steps);
            IsNewest(steps, k) && steps[k].message.timestamp > s.lastTimestamp ==>
              && u.lastTimestamp == steps[k].message.timestamp
              && u.localTimeDiff == steps[k].now - steps[k].message.timestamp
    ensures var u := Run(s, steps);
            (forall j :: 0 <= j < |steps| && steps[j].Data? ==> steps[j].message.timestamp <= s.lastTimestamp) ==>
              u.lastTimestamp == s.lastTimestamp && u.localTimeDiff == s.localTimeDiff
    decreases |steps|
  {
    if steps != [] {
      var n := |steps| - 1;
      var before := steps[..n];
      ClockExact(s, before, k);
      if k == n && steps[k].Data? {
        NewestBefore(s, before);
        assert forall j :: 0 <= j < n ==> before[j] == steps[j];
      }
    }
  }

  lemma {:induction false} NewestBefore<Tag>(s: Tracker<Tag>, steps: seq<Step<Tag>>)
    ensures var last := Run(s, steps).lastTimestamp;
            last == s.lastTimestamp
            || exists j :: 0 <= j < |steps| && steps[j].Data? && steps[j].message.timestamp == last
  {
    if steps != [] {
      var n := |steps| - 1;
      NewestBefore(s, steps[..n]);
      var last := Run(s, steps[..n]).lastTimestamp;
      if j :| 0 <= j < n && steps[..n][j].Data? && steps[..n][j].message.timestamp == last {
        assert steps[j] == steps[..n][j];
      }
      if steps[n].Data? {
        assert steps[n].message.timestamp == steps[n].message.timestamp;
      }
    }
  }

  /** The time of the check that a step makes, by the messages before it and, for a tick, by the clock. */
  ghost function CheckAfter<Tag>(s: Tracker<Tag>, steps: seq<Step<Tag>>, step: Step<Tag>): Option<int> {
    match step
    case Data(m, _) =>
      var opening := Opening(steps, s.transactionTimeout);
      if || m.transactionEnd
         || (opening.Some? && m.transactionId != opening.value.transactionId)
         || (opening.Some? && m.timestamp - opening.value.timestamp >= s.transactionTimeout)
      then Some(m.timestamp) else None
    case Tick(now) => Some(now - Run(s, steps).localTimeDiff)
    case Stop => None
  }

  lemma ChecksByMessages<Tag>(s: Tracker<Tag>, steps: seq<Step<Tag>>, step: Step<Tag>)
    requires !s.started
    ensures CheckTime(Run(s, steps), step) == CheckAfter(s, steps, step)
    ensures Run(s, steps).invalidationTimeout == s.invalidationTimeout
  {
    OpeningExact(s, steps);
  }

  /** Over any run from an empty cache, whether a tag disappears depends on the messages only: a step that
      does not read the tag reports it as disappeared exactly if the step checks, the listener takes the tag
      for visible, and its latest read since it appeared is at least the timeout before the check; it is
      reported with all antennas that read it since. So after a check no such tag remains visible. */
  lemma DisappearanceExact<Tag>(s: Tracker<Tag>, steps: seq<Step<Tag>>, step: Step<Tag>, t: Tag)
    requires s.tags == map[] && !s.started && !(step.Data? && step.message.tag == Some(t))
    ensures var gone := OutputOf(Run(s, steps), step).disappeared;
            var check, scans := CheckAfter(s, steps, step), Scans(s, steps);
            && (t in gone
                <==> && t in Seen(s, steps) && t in scans && scans[t] != []
                     && check.Some? && check.value - LatestTime(scans[t]) >= s.invalidationTimeout)
            && (t in gone ==> Sums(gone[t], scans[t]))
    ensures var check, scans := CheckAfter(s, steps, step), Scans(s, steps + [step]);
            check.Some? && t in Seen(s, steps + [step]) ==>
              t in scans && scans[t] != [] && check.value - LatestTime(scans[t]) < s.invalidationTimeout
  {
    hide TransactionChanged, Next, OutputOf, Seen, Scans, CheckTime, CheckAfter;
    var more := steps + [step];
    assert more[..|steps|] == steps;
    RunOneMore(s, steps, step);
    EntriesSumScans(s, steps);
    EntriesSumScans(s, more);
    CacheIsEventHistory(s, steps, step);
    CacheIsEventHistory(s, more, step);
    ChecksByMessages(s, steps, step);
    ChecksAreExact(Run(s, steps), step, t);
    GoneAsCached(Run(s, steps), step, t);
  }

  lemma GoneAsCached<Tag>(s: Tracker<Tag>, step: Step<Tag>, t: Tag)
    requires !(step.Data? && step.message.tag == Some(t))
    ensures var gone := OutputOf(s, step).disappeared;
            t in gone ==> t in s.tags && gone[t] == s.tags[t]
  {
  }

  /** Over any run from an empty cache, a read is reported as an appearance, with its antenna, exactly if the
      listener does not take the tag for visible, or if it comes with a change of the transaction when the
      latest read of the tag is at least the timeout before. */
  lemma AppearanceExact<Tag>(s: Tracker<Tag>, steps: seq<Step<Tag>>, m: Message<Tag>, now: int)
    requires s.tags == map[] && !s.started && m.tag.Some?
    ensures var t, opening, scans := m.tag.value, Opening(steps, s.transactionTimeout), Scans(s, steps);
            var appeared := OutputOf(Run(s, steps), Data(m, now)).appeared;
            && (appeared.Some? <==>
                || t !in Seen(s, steps)
                || (&& opening.Some? && t in scans && scans[t] != []
                    && (|| m.transactionId != opening.value.transactionId
                        || m.timestamp - opening.value.timestamp >= s.transactionTimeout)
                    && m.timestamp - LatestTime(scans[t]) >= s.invalidationTimeout))
            && (appeared.Some? ==> appeared.value.0 == t && forall v: int ::
                  Contains(appeared.value.1, v) <==> v == m.antennaId && 0 <= v <= 31)
  {
    var u, t := Run(s, steps), m.tag.value;
    CacheIsEventHistory(s, steps, Data(m, now));
    EntriesSumScans(s, steps);
    OpeningExact(s, steps);
    forall v: int ensures Contains(Singleton(m.antennaId), v) <==> v == m.antennaId && 0 <= v <= 31 {
      SingletonContains(m.antennaId, v);
    }
    hide Run, Seen, Scans, Opening, Contains, Singleton;
  }

  lemma RunOneMore<Tag>(s: Tracker<Tag>, steps: seq<Step<Tag>>, step: Step<Tag>)
    ensures Run(s, steps + [step]) == Next(Run(s, steps), step)
  {
    assert (steps + [step])[..|steps|] == steps;
  }

  // ---------------------------------------------------------------- detection time

  /** A tracker under a clock. `due` is the next time of the timer, which a transaction starts and
      which then fires at a fixed rate; time does not pass a moment when it is due. */
  datatype Clocked<Tag> = Clocked(tracker: Tracker<Tag>, now: int, due: int)

  datatype TimedStep<Tag> = Arrive(message: Message<Tag>) | Elapse(d: nat) | Fire

  /** Messages carry the time of their arrival. */
  function TimedNext<Tag>(c: Clocked<Tag>, step: TimedStep<Tag>): Clocked<Tag> {
    var s := c.tracker;
    match step
    case Arrive(m) =>
      if m.timestamp != c.now then c
      else
        var restarts := !s.started || TransactionChanged(s, m) || m.transactionEnd;
        c.(tracker := DataState(s, m, c.now), due := if restarts then c.now + s.transactionTimeout else c.due)
    case Elapse(d) => if s.started && c.now + d > c.due then c else c.(now := c.now + d)
    case Fire =>
      if s.started && c.now == c.due then
        c.(tracker := TickState(s, c.now), due := c.due + s.transactionTimeout)
      else c
  }

  function TimedRun<Tag>(c: Clocked<Tag>, steps: seq<TimedStep<Tag>>): Clocked<Tag> {
    if steps == [] then c else TimedNext(TimedRun(c, steps[..|steps| - 1]), steps[|steps| - 1])
  }

  /** After the last check, at `due - transactionTimeout`, no entry was as old as the timeout,
      except that an entry made at that very moment has age 0 even when the timeout is 0. */
  ghost predicate Punctual<Tag>(c: Clocked<Tag>) {
    var s := c.tracker;
    && s.transactionTimeout > 0 && s.invalidationTimeout >= 0 && s.localTimeDiff == 0
    && (!s.started ==> s.tags == map[])
    && (s.started ==>
          && c.due - s.transactionTimeout <= c.now <= c.due
          && forall t :: t in s.tags ==>
               var age := c.due - s.transactionTimeout - s.tags[t].lastAppearance;
               s.tags[t].lastAppearance <= c.now && (age <= 0 || age < s.invalidationTimeout))
  }

  lemma TimedNextPunctual<Tag>(c: Clocked<Tag>, step: TimedStep<Tag>)
    requires Punctual(c)
    ensures Punctual(TimedNext(c, step))
  {
  }

  lemma {:induction false} TimedRunPunctual<Tag>(c: Clocked<Tag>, steps: seq<TimedStep<Tag>>)
    requires Punctual(c)
    ensures Punctual(TimedRun(c, steps))
    ensures TimedRun(c, steps).tracker.transactionTimeout == c.tracker.transactionTimeout
    ensures TimedRun(c, steps).tracker.invalidationTimeout == c.tracker.invalidationTimeout
  {
    if steps != [] {
      TimedRunPunctual(c, steps[..|steps| - 1]);
      TimedNextPunctual(TimedRun(c, steps[..|steps| - 1]), steps[|steps| - 1]);
    }
  }

  /** In every reachable state, the age of every entry is below the sum of the two timeouts; with an
      invalidation timeout of 0 it may reach that sum at the moment when the timer is due. */
  lemma BoundedDetection<Tag>(c: Clocked<Tag>, steps: seq<TimedStep<Tag>>, t: Tag)
    requires c.tracker.tags == map[] && !c.tracker.started && c.tracker.localTimeDiff == 0
    requires c.tracker.transactionTimeout > 0 && c.tracker.invalidationTimeout >= 0
    requires t in TimedRun(c, steps).tracker.tags
    ensures var d := TimedRun(c, steps);
            var age := d.now - d.tracker.tags[t].lastAppearance;
            var bound := c.tracker.invalidationTimeout + c.tracker.transactionTimeout;
            0 <= age <= bound &&
            (age == bound ==> c.tracker.invalidationTimeout == 0 && d.now == d.due)
  {
    TimedRunPunctual(c, steps);
  }

  /** So it happens that the bound is reached: with invalidation timeout 0, the tag of the only message is
      as old as the transaction timeout when the timer is due. */
  lemma BoundReached(timeout: nat, m: Message<char>)
    requires timeout > 0 && m == Message(0, Some('t'), 0, 1, false)
    ensures var c := Clocked(Tracker(map[], timeout, 0, false, 0, 0, 0, 0), 0, 0);
            var d := TimedRun(c, [Arrive(m), Elapse(timeout)]);
            't' in d.tracker.tags && d.now - d.tracker.tags['t'].lastAppearance == timeout
  {
    var c := Clocked(Tracker(map[], timeout, 0, false, 0, 0, 0, 0), 0, 0);
    var steps := [Arrive(m), Elapse(timeout)];
    assert steps[..1] == [Arrive(m)] && steps[..1][..0] == [];
    assert TimedRun(c, steps[..1]) == TimedNext(c, Arrive(m));
  }
}
