/** The tracker as an object whose callbacks update its cache and report to a listener. */
module RfTrackers {
  import opened Wrappers
  import opened IntSets
  import opened RfTrackerSpec

  datatype Report<Tag> = Appeared(tag: Tag, antennas: IntSet) | Disappeared(tag: Tag, antennas: IntSet)

  /** `reports` tells of `gone`, each tag once, in some order. */
  ghost predicate Reported<Tag>(gone: map<Tag, Presence>, reports: seq<Report<Tag>>) {
    && (forall i :: 0 <= i < |reports| ==>
          reports[i].Disappeared? && reports[i].tag in gone
          && reports[i].antennas == gone[reports[i].tag].antennas)
    && (forall i, j :: 0 <= i < j < |reports| ==> reports[i].tag != reports[j].tag)
    && (forall t :: t in gone ==> exists i :: 0 <= i < |reports| && reports[i].tag == t)
  }

  /** The reports of one call: an appearance, if any, before all disappearances. */
  ghost predicate Reports<Tag>(o: Output<Tag>, reports: seq<Report<Tag>>) {
    match o.appeared
    case None => Reported(o.disappeared, reports)
    case Some((t, antennas)) =>
      |reports| > 0 && reports[0] == Appeared(t, antennas) && Reported(o.disappeared, reports[1..])
  }

  /** Reading the reports one after another. */
  ghost function Fold<Tag>(seen: set<Tag>, reports: seq<Report<Tag>>): set<Tag> {
    if reports == [] then seen
    else
      var before, last := Fold(seen, reports[..|reports| - 1]), reports[|reports| - 1];
      if last.Appeared? then before + {last.tag} else before - {last.tag}
  }

  lemma {:induction false} FoldGone<Tag>(seen: set<Tag>, reports: seq<Report<Tag>>)
    requires forall i :: 0 <= i < |reports| ==> reports[i].Disappeared?
    ensures Fold(seen, reports) == seen - set i | 0 <= i < |reports| :: reports[i].tag
  {
    if reports != [] {
      var rest := reports[..|reports| - 1];
      FoldGone(seen, rest);
      assert (set i | 0 <= i < |reports| :: reports[i].tag)
          == (set i | 0 <= i < |rest| :: rest[i].tag) + {reports[|reports| - 1].tag};
    }
  }

  lemma {:induction false} FoldFirst<Tag>(seen: set<Tag>, reports: seq<Report<Tag>>)
    requires reports != []
    ensures Fold(seen, reports)
         == Fold(if reports[0].Appeared? then seen + {reports[0].tag} else seen - {reports[0].tag}, reports[1..])
  {
    if |reports| > 1 {
      FoldFirst(seen, reports[..|reports| - 1]);
      assert reports[1..][..|reports| - 2] == reports[..|reports| - 1][1..];
    } else {
      assert reports[..0] == [] && reports[1..] == [];
    }
  }

  /** In whatever order the disappearances come, the listener ends up with the same view. */
  lemma FoldIsSeenAfter<Tag>(seen: set<Tag>, o: Output<Tag>, reports: seq<Report<Tag>>)
    requires Reports(o, reports)
    ensures Fold(seen, reports) == SeenAfter(seen, o)
  {
    var gone := if o.appeared.Some? then reports[1..] else reports;
    if o.appeared.Some? {
      FoldFirst(seen, reports);
    }
    FoldGone(if o.appeared.Some? then seen + {reports[0].tag} else seen, gone);
    assert (set i | 0 <= i < |gone| :: gone[i].tag) == o.disappeared.Keys;
  }

  lemma OneMoreReported<Tag>(gone: map<Tag, Presence>, reports: seq<Report<Tag>>, tag: Tag, p: Presence)
    requires Reported(gone, reports) && tag !in gone
    ensures Reported(gone[tag := p], reports + [Disappeared(tag, p.antennas)])
  {
    var more := reports + [Disappeared(tag, p.antennas)];
    assert more[|reports|].tag == tag;
    forall t | t in gone
      ensures exists i :: 0 <= i < |more| && more[i].tag == t
    {
      var i :| 0 <= i < |reports| && reports[i].tag == t;
      assert more[i].tag == t;
    }
  }

  /** Which entries a message drops and enters does not depend on the clock. */
  lemma ClockIsNoPart<Tag>(s: Tracker<Tag>, lastTimestamp: int, localTimeDiff: int, m: Message<Tag>)
    ensures var t := s.(lastTimestamp := lastTimestamp, localTimeDiff := localTimeDiff);
            && TransactionChanged(t, m) == TransactionChanged(s, m) && Checked(t, m) == Checked(s, m)
            && Cached(t, m) == Cached(s, m) && AtChange(t, m) == AtChange(s, m)
  {
  }

  class DefaultRfTracker<Tag(==)> {
    var tags: map<Tag, Presence>
    var transactionTimeout: int
    var invalidationTimeout: int
    var transactionChecker: bool        // a timer is set
    var transactionId: int
    var transactionStart: int
    var lastTimestamp: int
    var localTimeDiff: int
    var reports: seq<Report<Tag>>

    ghost function View(): Tracker<Tag>
      reads this
    {
      Tracker(tags, transactionTimeout, invalidationTimeout, transactionChecker, transactionId,
              transactionStart, lastTimestamp, localTimeDiff)
    }

    constructor (transactionTimeout: int, invalidationTimeout: int)
      ensures View() == Tracker(map[], transactionTimeout, invalidationTimeout, false, 0, 0, 0, 0)
      ensures reports == []
    {
      this.tags, this.transactionChecker, this.reports := map[], false, [];
      this.transactionTimeout, this.invalidationTimeout := transactionTimeout, invalidationTimeout;
      this.transactionId, this.transactionStart, this.lastTimestamp, this.localTimeDiff := 0, 0, 0, 0;
    }

    /** A read, or the end of a transaction: first the monitored part, then the reports. */
    method RfData(m: Message<Tag>, now: int)
      modifies this
      ensures View() == DataState(old(View()), m, now)
      ensures old(reports) <= reports && Reports(DataOutput(old(View()), m), reports[|old(reports)|..])
    {
      var appeared, obsolete := UpdateCache(m, now);
      if appeared.Some? {
        reports := reports + [Appeared(m.tag.value, appeared.value.antennas)];
      }
      ghost var n, before := |old(reports)|, reports;
      TagsDisappeared(obsolete);
      assert appeared.Some? ==> reports[n] == before[n] && reports[n..][1..] == reports[|before|..];
    }

    method UpdateCache(m: Message<Tag>, now: int)
      returns (appeared: Option<Presence>, obsolete: map<Tag, Presence>)
      modifies this`tags, this`transactionChecker, this`transactionId, this`transactionStart,
               this`lastTimestamp, this`localTimeDiff
      ensures View() == DataState(old(View()), m, now)
      ensures DataOutput(old(View()), m)
           == Output(if appeared.Some? && m.tag.Some? then Some((m.tag.value, appeared.value.antennas)) else None,
                     obsolete)
      ensures appeared.Some? ==> m.tag.Some?
    {
      hide Fresh, Obsolete, Cached, Checked, TransactionChanged, AtChange, Singleton;
      var timeDiff := now - m.timestamp;
      if m.timestamp > lastTimestamp {
        lastTimestamp, localTimeDiff := m.timestamp, timeDiff;
      }
      ClockIsNoPart(old(View()), lastTimestamp, localTimeDiff, m);
      appeared, obsolete := Enter(m);
      if m.transactionEnd {
        var more := EndTransaction(m.timestamp);
        obsolete := obsolete + more;
      }
      if !transactionChecker {
        StartTransaction(m);
      }
    }

    /** The check when the message changes the transaction, then the message's own tag. */
    method Enter(m: Message<Tag>) returns (appeared: Option<Presence>, obsolete: map<Tag, Presence>)
      modifies this`tags, this`transactionChecker
      ensures tags == Cached(old(View()), m) && obsolete == AtChange(old(View()), m)
      ensures transactionChecker == (old(transactionChecker) && !TransactionChanged(old(View()), m))
      ensures appeared == if m.tag.Some? && m.tag.value !in Checked(old(View()), m)
                          then Some(Presence(m.timestamp, Singleton(m.antennaId))) else None
    {
      hide Fresh, Obsolete, Reread, Lookup, Singleton;
      obsolete, appeared := map[], None;
      if transactionChecker && IsTransactionChanged(m) {
        obsolete := EndTransaction(m.timestamp);
      }
      if m.tag.Some? {
        obsolete := obsolete - {m.tag.value};
        appeared := CacheTag(m.tag.value, m.timestamp, m.antennaId);
      }
    }

    /** The timer's callback. */
    method Run(now: int)
      modifies this`tags, this`reports
      ensures View() == TickState(old(View()), now)
      ensures old(reports) <= reports && Reports(TickOutput(old(View()), now), reports[|old(reports)|..])
    {
      var obsolete := RemoveObsoleteTags(now - localTimeDiff);
      TagsDisappeared(obsolete);
    }

    method StopRfTracking()
      modifies this`transactionChecker
      ensures View() == old(View()).(started := false)
    {
      transactionChecker := false;
    }

    predicate IsTransactionChanged(m: Message<Tag>)
      reads this
    {
      if transactionId != m.transactionId then true
      else m.timestamp - transactionStart >= transactionTimeout
    }

    /** Enters a read; the result is the new entry if the tag was not there. */
    method CacheTag(tag: Tag, timestamp: int, antennaId: int) returns (appeared: Option<Presence>)
      modifies this`tags
      ensures tags == old(tags)[tag := Reread(Lookup(old(tags), tag), timestamp, antennaId)]
      ensures appeared == if tag in old(tags) then None else Some(Presence(timestamp, Singleton(antennaId)))
    {
      var presence := Presence(timestamp, Singleton(antennaId));
      var last := Lookup(tags, tag);
      tags := tags[tag := presence];
      if last.None? {
        return Some(presence);
      }
      if last.value.lastAppearance > timestamp {
        var kept := last.value.(antennas := Union(last.value.antennas, presence.antennas));
        tags := tags[tag := kept];
      } else {
        tags := tags[tag := presence.(antennas := Union(presence.antennas, last.value.antennas))];
      }
      return None;
    }

    method EndTransaction(timestamp: int) returns (obsolete: map<Tag, Presence>)
      modifies this`tags, this`transactionChecker
      ensures !transactionChecker
      ensures tags == Fresh(old(tags), timestamp, invalidationTimeout)
      ensures obsolete == Obsolete(old(tags), timestamp, invalidationTimeout)
    {
      transactionChecker := false;
      obsolete := RemoveObsoleteTags(timestamp);
    }

    method StartTransaction(m: Message<Tag>)
      modifies this`transactionId, this`transactionStart, this`transactionChecker
      ensures transactionChecker && transactionId == m.transactionId && transactionStart == m.timestamp
    {
      transactionId, transactionStart, transactionChecker := m.transactionId, m.timestamp, true;
    }

    /** The loop over the entries, which removes the obsolete ones on the way. */
    method RemoveObsoleteTags(timestamp: int) returns (obsolete: map<Tag, Presence>)
      modifies this`tags
      ensures tags == Fresh(old(tags), timestamp, invalidationTimeout)
      ensures obsolete == Obsolete(old(tags), timestamp, invalidationTimeout)
    {
      var rest := tags.Keys;
      obsolete := map[];
      while rest != {}
        invariant rest <= tags.Keys <= old(tags).Keys
        invariant forall t :: t in tags ==> tags[t] == old(tags)[t]
        invariant forall t :: t in old(tags) && t !in rest ==>
                    (t in tags <==> !IsObsolete(old(tags)[t], timestamp, invalidationTimeout))
        invariant obsolete == map t | t in old(tags) && t !in tags :: old(tags)[t]
        decreases |rest|
      {
        var tag :| tag in rest;
        rest := rest - {tag};
        if timestamp - tags[tag].lastAppearance < invalidationTimeout {
          continue;
        }
        obsolete := obsolete[tag := tags[tag]];
        tags := tags - {tag};
      }
    }

    /** Reports every tag once. */
    method TagsDisappeared(obsolete: map<Tag, Presence>)
      modifies this`reports
      ensures old(reports) <= reports && Reported(obsolete, reports[|old(reports)|..])
    {
      var rest := obsolete.Keys;
      ghost var n := |reports|;
      while rest != {}
        invariant rest <= obsolete.Keys && n <= |reports| && old(reports) <= reports
        invariant Reported(map t | t in obsolete && t !in rest :: obsolete[t], reports[n..])
        decreases |rest|
      {
        var tag :| tag in rest;
        ghost var told, before := (map t | t in obsolete && t !in rest :: obsolete[t]), reports[n..];
        rest := rest - {tag};
        reports := reports + [Disappeared(tag, obsolete[tag].antennas)];
        assert reports[n..] == before + [Disappeared(tag, obsolete[tag].antennas)];
        assert (map t | t in obsolete && t !in rest :: obsolete[t]) == told[tag := obsolete[tag]];
        OneMoreReported(told, before, tag, obsolete[tag]);
      }
      assert (map t | t in obsolete && t !in rest :: obsolete[t]) == obsolete;
    }
  }
}
