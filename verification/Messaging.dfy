/** The topic bus: sequence-numbered publication, cursor polling and compaction
    (crates/apollo-core/src/messaging.rs). The clock is an argument and never runs backwards. */
module Messaging {

  import opened Numbers
  import opened Options

  datatype BusMessage = BusMessage(seqNo: nat, payload: string, timestamp: nat, ttl: Option<nat>)

  /** BusMessage::is_expired */
  predicate IsExpired(m: BusMessage, now: nat) {
    m.ttl.Some? && now >= m.timestamp + m.ttl.value
  }

  function Live(log: seq<BusMessage>, now: nat): seq<BusMessage> {
    if log == [] then []
    else
      var init := Live(log[..|log| - 1], now);
      if IsExpired(log[|log| - 1], now) then init else init + [log[|log| - 1]]
  }

  /** The messages poll selects, before its limit. */
  function Pending(log: seq<BusMessage>, since: nat, now: nat): seq<BusMessage> {
    if log == [] then []
    else
      var m := log[|log| - 1];
      var init := Pending(log[..|log| - 1], since, now);
      if m.seqNo > since && !IsExpired(m, now) then init + [m] else init
  }

  const POLL_CAP: nat := 1000

  function Poll(log: seq<BusMessage>, since: nat, limit: nat, now: nat): seq<BusMessage> {
    var found := Pending(log, since, now);
    found[..Min(Min(limit, POLL_CAP), |found|)]
  }

  /** Sequence numbers ascend strictly and stay within `last`. */
  ghost predicate Numbered(log: seq<BusMessage>, last: nat) {
    && (forall i, j :: 0 <= i < j < |log| ==> log[i].seqNo < log[j].seqNo)
    && (forall i :: 0 <= i < |log| ==> 0 < log[i].seqNo <= last)
  }

  class Topic {
    var log: seq<BusMessage>
    var lastSeq: nat
    var totalMessages: nat

    ghost predicate Valid()
      reads this
    {
      Numbered(log, lastSeq)
    }

    constructor ()
      ensures Valid() && totalMessages == 0 && forall now: nat :: On(Start(now)) == Start(now)
    {
      log, lastSeq, totalMessages := [], 0, 0;
    }

    /** The bus of the whole-run results below, holding this topic. */
    ghost function On(b: Bus): Bus
      reads this
    {
      b.(log := log, lastSeq := lastSeq)
    }

    method Publish(payload: string, ttl: Option<nat>, now: nat) returns (msg: BusMessage)
      requires Valid()
      modifies this
      ensures Valid() && totalMessages == old(totalMessages) + 1
      ensures msg == BusMessage(old(lastSeq) + 1, payload, now, ttl)
      ensures forall b: Bus :: b.now == now ==>
        Step(old(On(b)), PublishMsg(payload, ttl)) == On(b.(published := b.published + [msg]))
    {
      lastSeq := lastSeq + 1;
      totalMessages := totalMessages + 1;
      msg := BusMessage(lastSeq, payload, now, ttl);
      NumberedUpTo(log, lastSeq - 1, lastSeq);
      NumberedSnoc(log, msg, lastSeq);
      log := log + [msg];
      hide Numbered, Step;
      forall b: Bus | b.now == now
        ensures Step(old(On(b)), PublishMsg(payload, ttl)) == On(b.(published := b.published + [msg]))
      {
        PublishStep(old(On(b)), payload, ttl);
      }
    }

    /** Rewrites the log without its expired messages; returns how many went. */
    method Compact(now: nat) returns (removed: nat)
      requires Valid()
      modifies this`log
      ensures Valid() && removed == |old(log)| - |log|
      ensures forall m :: m in log <==> m in old(log) && (m.ttl.Some? ==> now < m.timestamp + m.ttl.value)
      ensures forall b: Bus :: b.now == now ==> Step(old(On(b)), CompactLog) == On(b)
    {
      LiveMembers(log, now);
      LiveIsNumbered(log, now, lastSeq);
      var live := Live(log, now);
      removed := |log| - |live|;
      log := live;
    }

    /** Unexpired messages above `since`, ascending, gap-free up to expiry, all of them unless the limit is reached. */
    method PollSince(since: nat, limit: nat, now: nat) returns (found: seq<BusMessage>)
      requires Valid()
      ensures Numbered(found, lastSeq) && |found| <= Min(limit, 1000)
      ensures forall m :: m in found ==>
        m in log && m.seqNo > since && (m.ttl.Some? ==> now < m.timestamp + m.ttl.value)
      ensures forall m :: m in log && m.seqNo > since && m !in found ==>
        || (m.ttl.Some? && now >= m.timestamp + m.ttl.value)
        || (|found| == Min(limit, 1000) && forall f :: f in found ==> f.seqNo < m.seqNo)
      ensures forall b: Bus :: b.now == now && b.cursor == since ==>
        Step(On(b), PollNext(limit)) ==
        (if found == [] then On(b) else On(b).(received := b.received + found, cursor := found[|found| - 1].seqNo))
    {
      PollFacts(log, lastSeq, since, limit, now);
      found := Poll(log, since, limit, now);
    }

    /** The last `limit` live messages, kept in a bounded queue; a limit of 0 still keeps one. */
    method PeekLatest(limit: nat, now: nat) returns (msgs: seq<BusMessage>)
      ensures msgs == LastOf(Live(log, now), if limit == 0 then 1 else limit)
    {
      hide LastOf;
      ghost var n := if limit == 0 then 1 else limit;
      msgs := [];
      LastOfSnoc<BusMessage>([], BusMessage(0, "", 0, None), n);
      for k := 0 to |log|
        invariant msgs == LastOf(Live(log[..k], now), n)
      {
        ghost var live := Live(log[..k], now);
        assert log[..k + 1][..k] == log[..k];
        LastOfSnoc(live, log[k], n);
        if !IsExpired(log[k], now) {
          if |msgs| >= limit && msgs != [] { msgs := msgs[1..]; }
          msgs := msgs + [log[k]];
        }
      }
      assert log[..|log|] == log;
    }
  }

  /** The last `n` of the messages that have not reached their time stamp plus ttl, all of them if there are fewer. */
  lemma LastLiveMeans(log: seq<BusMessage>, n: nat, now: nat)
    ensures var live := Live(log, now);
            var msgs := LastOf(live, n);
            && |msgs| == Min(n, |live|) && msgs == live[|live| - |msgs|..]
            && forall m :: m in msgs ==> m in log && (m.ttl.Some? ==> now < m.timestamp + m.ttl.value)
  {
    LiveMembers(log, now);
    hide Live;
    assert forall m :: m in LastOf(Live(log, now), n) ==> m in Live(log, now);
  }

  function LastOf<T>(s: seq<T>, n: nat): seq<T> {
    s[|s| - Min(n, |s|)..]
  }

  lemma LastOfSnoc<T>(s: seq<T>, x: T, n: nat)
    requires n > 0
    ensures |LastOf(s, n)| == Min(n, |s|)
    ensures LastOf(s + [x], n) == (if |s| >= n then LastOf(s, n)[1..] else LastOf(s, n)) + [x]
  {
  }

  lemma {:induction false} LiveMembers(log: seq<BusMessage>, now: nat)
    ensures |Live(log, now)| <= |log|
    ensures forall m :: m in Live(log, now) <==> m in log && !IsExpired(m, now)
  {
    if log != [] {
      var init := log[..|log| - 1];
      LiveMembers(init, now);
      assert log == init + [log[|log| - 1]];
    }
  }

  lemma NumberedLast(log: seq<BusMessage>, last: nat)
    requires Numbered(log, last) && log != []
    ensures var init, m := log[..|log| - 1], log[|log| - 1];
            Numbered(init, last) && 0 < m.seqNo <= last && forall x :: x in init ==> x.seqNo < m.seqNo
  {
  }

  lemma NumberedUpTo(log: seq<BusMessage>, last: nat, more: nat)
    requires Numbered(log, last) && last < more
    ensures Numbered(log, more) && forall x :: x in log ==> x.seqNo < more
  {
  }

  lemma NumberedSnoc(log: seq<BusMessage>, m: BusMessage, last: nat)
    requires Numbered(log, last) && 0 < m.seqNo <= last && forall x :: x in log ==> x.seqNo < m.seqNo
    ensures Numbered(log + [m], last)
  {
    assert forall i :: 0 <= i < |log| ==> log[i] in log;
  }

  lemma {:induction false} LiveIsNumbered(log: seq<BusMessage>, now: nat, last: nat)
    requires Numbered(log, last)
    ensures Numbered(Live(log, now), last) && |Live(log, now)| <= |log|
  {
    if log != [] {
      var init, m := log[..|log| - 1], log[|log| - 1];
      NumberedLast(log, last);
      hide Numbered, IsExpired;
      LiveIsNumbered(init, now, last);
      LiveMembers(init, now);
      NumberedSnoc(Live(init, now), m, last);
    }
  }

  lemma {:induction false} PendingChosen(log: seq<BusMessage>, since: nat, now: nat)
    ensures forall m :: m in Pending(log, since, now) <==> m in log && m.seqNo > since && !IsExpired(m, now)
  {
    if log != [] {
      var init, last := log[..|log| - 1], log[|log| - 1];
      PendingChosen(init, since, now);
      assert log == init + [last];
    }
  }

  lemma {:induction false} PendingMembers(log: seq<BusMessage>, since: nat, now: nat, last: nat)
    requires Numbered(log, last)
    ensures Numbered(Pending(log, since, now), last)
    ensures forall m :: m in Pending(log, since, now) <==> m in log && m.seqNo > since && !IsExpired(m, now)
  {
    PendingChosen(log, since, now);
    if log != [] {
      var init, m := log[..|log| - 1], log[|log| - 1];
      NumberedLast(log, last);
      hide Numbered, IsExpired;
      PendingMembers(init, since, now, last);
      NumberedSnoc(Pending(init, since, now), m, last);
    }
  }

  // ---- compaction is invisible ----

  /** Removing what is expired never changes what a poll selects then or later. */
  lemma {:induction false} CompactedPending(log: seq<BusMessage>, at: nat, since: nat, now: nat)
    requires at <= now
    ensures Pending(Live(log, at), since, now) == Pending(log, since, now)
  {
    if log != [] {
      var init, m := log[..|log| - 1], log[|log| - 1];
      CompactedPending(init, at, since, now);
      if !IsExpired(m, at) {
        assert (Live(init, at) + [m])[..|Live(init, at)|] == Live(init, at);
      }
    }
  }

  lemma SamePendingOneMore(a: seq<BusMessage>, b: seq<BusMessage>, m: BusMessage, since: nat, now: nat)
    requires Pending(a, since, now) == Pending(b, since, now)
    ensures Pending(a + [m], since, now) == Pending(b + [m], since, now)
  {
    assert (a + [m])[..|a|] == a && (b + [m])[..|b|] == b;
  }

  // ---- whole runs: one topic, one consumer that polls from its last seen number ----

  datatype Event = PublishMsg(payload: string, ttl: Option<nat>) | CompactLog | PollNext(limit: nat) | Wait(secs: nat)

  datatype Bus = Bus(log: seq<BusMessage>, lastSeq: nat, now: nat, cursor: nat,
                     received: seq<BusMessage>, published: seq<BusMessage>)

  function Start(now: nat): Bus {
    Bus([], 0, now, 0, [], [])
  }

  function Step(b: Bus, e: Event): Bus {
    match e
    case PublishMsg(payload, ttl) =>
      var msg := BusMessage(b.lastSeq + 1, payload, b.now, ttl);
      b.(log := b.log + [msg], lastSeq := b.lastSeq + 1, published := b.published + [msg])
    case CompactLog => b.(log := Live(b.log, b.now))
    case PollNext(limit) =>
      var found := Poll(b.log, b.cursor, limit, b.now);
      if found == [] then b
      else b.(received := b.received + found, cursor := found[|found| - 1].seqNo)
    case Wait(secs) => b.(now := b.now + secs)
  }

  function Run(b: Bus, events: seq<Event>): Bus {
    if events == [] then b else Step(Run(b, events[..|events| - 1]), events[|events| - 1])
  }

  lemma PublishStep(b: Bus, payload: string, ttl: Option<nat>)
    ensures var msg := BusMessage(b.lastSeq + 1, payload, b.now, ttl);
            Step(b, PublishMsg(payload, ttl))
              == b.(log := b.log + [msg], lastSeq := b.lastSeq + 1, published := b.published + [msg])
  {
  }

  ghost predicate Delivered(b: Bus, m: BusMessage) {
    m in b.received || IsExpired(m, b.now)
  }

  /** What every reachable state satisfies. */
  ghost predicate BusInv(b: Bus) {
    && Numbered(b.log, b.lastSeq) && Numbered(b.published, b.lastSeq)
    && Numbered(b.received, b.cursor) && b.cursor <= b.lastSeq
    && (forall m :: m in b.received ==> m in b.published)
    && (forall m :: m in b.log ==> m in b.published)
    && (forall m :: m in b.published ==> m in b.log || IsExpired(m, b.now))
    && (forall m :: m in b.published && m.seqNo <= b.cursor ==> Delivered(b, m))
  }

  /** A poll returns the unexpired messages above the cursor, ascending, up to its limit. */
  lemma PollFacts(log: seq<BusMessage>, last: nat, since: nat, limit: nat, now: nat)
    requires Numbered(log, last)
    ensures var found := Poll(log, since, limit, now);
            && Numbered(found, last) && |found| <= Min(limit, POLL_CAP)
            && (forall m :: m in found ==> m in log && m.seqNo > since && !IsExpired(m, now))
            && (forall m :: m in log && m.seqNo > since && m !in found ==>
                  IsExpired(m, now) || (|found| == Min(limit, POLL_CAP) && forall f :: f in found ==>
                    f.seqNo < m.seqNo))
  {
    var found, all := Poll(log, since, limit, now), Pending(log, since, now);
    PendingMembers(log, since, now, last);
    assert forall i :: 0 <= i < |found| ==> found[i] == all[i];
    forall m | m in all && m !in found
      ensures |found| == Min(limit, POLL_CAP) && forall f :: f in found ==> f.seqNo < m.seqNo
    {
      var i :| 0 <= i < |all| && all[i] == m;
      assert i >= |found|;
    }
  }

  lemma NumberedAppend(a: seq<BusMessage>, b: seq<BusMessage>, mid: nat, last: nat)
    requires Numbered(a, mid) && Numbered(b, last) && b != [] && forall m :: m in b ==> m.seqNo > mid
    ensures Numbered(a + b, b[|b| - 1].seqNo)
  {
    assert forall i :: 0 <= i < |b| ==> b[i] in b;
  }

  lemma PollAdvances(b: Bus, limit: nat)
    requires BusInv(b)
    ensures BusInv(Step(b, PollNext(limit)))
  {
    hide Poll;
    var found, b' := Poll(b.log, b.cursor, limit, b.now), Step(b, PollNext(limit));
    PollFacts(b.log, b.lastSeq, b.cursor, limit, b.now);
    if found != [] {
      NumberedAppend(b.received, found, b.cursor, b.lastSeq);
      assert b'.received == b.received + found;
      assert found[|found| - 1] in found;
      hide Numbered;
      forall m ensures m in b'.received <==> m in b.received || m in found {
      }
    }
  }

  lemma StepKeepsInv(b: Bus, e: Event)
    requires BusInv(b)
    ensures BusInv(Step(b, e))
  {
    match e
    case PublishMsg(payload, ttl) =>
    case CompactLog =>
      LiveIsNumbered(b.log, b.now, b.lastSeq);
      LiveMembers(b.log, b.now);
    case PollNext(limit) => PollAdvances(b, limit);
    case Wait(secs) =>
  }

  /** In every reachable state: the log is strictly numbered up to lastSeq; what the consumer received ascends
      strictly (nothing twice, nothing out of order) and was published; and every published message at or below
      its cursor was received or has expired. */
  lemma {:induction false} RunKeepsInv(start: nat, events: seq<Event>)
    ensures BusInv(Run(Start(start), events))
  {
    if events != [] {
      RunKeepsInv(start, events[..|events| - 1]);
      StepKeepsInv(Run(Start(start), events[..|events| - 1]), events[|events| - 1]);
    }
  }

  /** After a poll that returns fewer messages than it may, every published message was received or has expired. */
  lemma ShortPollCatchesUp(start: nat, events: seq<Event>, limit: nat)
    requires var b := Run(Start(start), events); |Poll(b.log, b.cursor, limit, b.now)| < Min(limit, POLL_CAP)
    ensures var b := Step(Run(Start(start), events), PollNext(limit));
            forall m :: m in b.published ==> Delivered(b, m)
  {
    var b := Run(Start(start), events);
    RunKeepsInv(start, events);
    PendingMembers(b.log, b.cursor, b.now, b.lastSeq);
    var found := Poll(b.log, b.cursor, limit, b.now);
    assert found == Pending(b.log, b.cursor, b.now);
    var b' := Step(b, PollNext(limit));
    forall m | m in b'.published ensures Delivered(b', m) {
      if m in b.log && m.seqNo > b.cursor && !IsExpired(m, b.now) { assert m in found; }
    }
  }

  // ---- how long a message lives ----

  /** Every message was published within the run, at its time stamp. */
  lemma {:induction false} StampedWithinRun(start: nat, events: seq<Event>)
    ensures var b := Run(Start(start), events);
            start <= b.now && forall m :: m in b.published ==> start <= m.timestamp <= b.now
  {
    if events != [] {
      StampedWithinRun(start, events[..|events| - 1]);
      hide Poll, Live;
    }
  }

  /** Over any run, compactions included: from its publication a message is selected by every poll from below its
      number that its limit lets get so far, up to but not including its time stamp plus its ttl, and by no poll from
      then on; without a ttl it is selected for ever. */
  lemma SelectedUntilExpiry(start: nat, events: seq<Event>, m: BusMessage, since: nat, limit: nat)
    requires m in Run(Start(start), events).published
    ensures var b := Run(Start(start), events);
            var found := Poll(b.log, since, limit, b.now);
            if since < m.seqNo && (m.ttl == None || b.now < m.timestamp + m.ttl.value)
            then m in found || (|found| == Min(limit, 1000) && forall f :: f in found ==> f.seqNo < m.seqNo)
            else m !in found
  {
    var b := Run(Start(start), events);
    RunKeepsInv(start, events);
    PollFacts(b.log, b.lastSeq, since, limit, b.now);
    hide Poll;
  }

  /** A compaction removes a message exactly from its time stamp plus its ttl on. */
  lemma CompactedFromExpiry(start: nat, events: seq<Event>, m: BusMessage)
    requires m in Run(Start(start), events).published
    ensures var b := Step(Run(Start(start), events), CompactLog);
            m in b.log <==> m.ttl == None || b.now < m.timestamp + m.ttl.value
  {
    var b := Run(Start(start), events);
    RunKeepsInv(start, events);
    LiveMembers(b.log, b.now);
  }

  // ---- the clock's origin does not matter ----

  function Later(m: BusMessage, secs: nat): BusMessage {
    m.(timestamp := m.timestamp + secs)
  }

  function AllLater(log: seq<BusMessage>, secs: nat): (r: seq<BusMessage>)
    ensures |r| == |log|
  {
    if log == [] then [] else AllLater(log[..|log| - 1], secs) + [Later(log[|log| - 1], secs)]
  }

  function BusLater(b: Bus, secs: nat): Bus {
    b.(log := AllLater(b.log, secs), now := b.now + secs,
       received := AllLater(b.received, secs), published := AllLater(b.published, secs))
  }

  lemma {:induction false} AllLaterAppend(a: seq<BusMessage>, b: seq<BusMessage>, secs: nat)
    ensures AllLater(a + b, secs) == AllLater(a, secs) + AllLater(b, secs)
  {
    if b == [] {
      assert a + b == a;
    } else {
      AllLaterAppend(a, b[..|b| - 1], secs);
      assert (a + b)[..|a + b| - 1] == a + b[..|b| - 1];
    }
  }

  lemma {:induction false} AllLaterTake(log: seq<BusMessage>, n: nat, secs: nat)
    requires n <= |log|
    ensures AllLater(log, secs)[..n] == AllLater(log[..n], secs)
    ensures forall i :: 0 <= i < |log| ==> AllLater(log, secs)[i] == Later(log[i], secs)
  {
    if log != [] {
      var m := |log| - 1;
      AllLaterTake(log[..m], if n <= m then n else m, secs);
      if n <= m { assert log[..m][..n] == log[..n]; } else { assert log[..n] == log; }
    }
  }

  lemma {:induction false} ChosenLater(log: seq<BusMessage>, since: nat, now: nat, secs: nat)
    ensures Live(AllLater(log, secs), now + secs) == AllLater(Live(log, now), secs)
    ensures Pending(AllLater(log, secs), since, now + secs) == AllLater(Pending(log, since, now), secs)
  {
    if log != [] {
      var init, m := log[..|log| - 1], log[|log| - 1];
      ChosenLater(init, since, now, secs);
      var later := AllLater(log, secs);
      assert later[..|later| - 1] == AllLater(init, secs) && later[|later| - 1] == Later(m, secs);
      AllLaterAppend(Live(init, now), [m], secs);
      AllLaterAppend(Pending(init, since, now), [m], secs);
      assert [m][..0] == [] && AllLater([m], secs) == [Later(m, secs)];
      assert IsExpired(Later(m, secs), now + secs) <==> IsExpired(m, now);
    }
  }

  lemma PublishLater(b: Bus, payload: string, ttl: Option<nat>, secs: nat)
    ensures Step(BusLater(b, secs), PublishMsg(payload, ttl)) == BusLater(Step(b, PublishMsg(payload, ttl)), secs)
  {
    var msg := BusMessage(b.lastSeq + 1, payload, b.now, ttl);
    AllLaterAppend(b.log, [msg], secs);
    AllLaterAppend(b.published, [msg], secs);
    assert [msg][..0] == [] && AllLater([msg], secs) == [Later(msg, secs)];
    hide AllLater, Poll, Live;
  }

  lemma PollLater(log: seq<BusMessage>, since: nat, limit: nat, now: nat, secs: nat)
    ensures var found, later := Poll(log, since, limit, now), Poll(AllLater(log, secs), since, limit, now + secs);
            && later == AllLater(found, secs)
            && (found != [] ==> later[|later| - 1].seqNo == found[|found| - 1].seqNo)
  {
    var all := Pending(log, since, now);
    ChosenLater(log, since, now, secs);
    var n := Min(Min(limit, POLL_CAP), |all|);
    AllLaterTake(all, n, secs);
    AllLaterTake(all[..n], n, secs);
    hide Pending, AllLater;
  }

  lemma StepLater(b: Bus, e: Event, secs: nat)
    ensures Step(BusLater(b, secs), e) == BusLater(Step(b, e), secs)
  {
    match e
    case PublishMsg(payload, ttl) => PublishLater(b, payload, ttl, secs);
    case CompactLog => ChosenLater(b.log, 0, b.now, secs);
    case PollNext(limit) => PollStepLater(b, limit, secs);
    case Wait(k) =>
  }

  lemma PollStepLater(b: Bus, limit: nat, secs: nat)
    ensures Step(BusLater(b, secs), PollNext(limit)) == BusLater(Step(b, PollNext(limit)), secs)
  {
    hide AllLater, Poll, Live;
    PollLater(b.log, b.cursor, limit, b.now, secs);
    AllLaterAppend(b.received, Poll(b.log, b.cursor, limit, b.now), secs);
  }

  /** Starting a run later only shifts its time stamps. */
  lemma {:induction false} RunLater(start: nat, events: seq<Event>, secs: nat)
    ensures Run(Start(start + secs), events) == BusLater(Run(Start(start), events), secs)
  {
    if events != [] {
      var init := events[..|events| - 1];
      RunLater(start, init, secs);
      StepLater(Run(Start(start), init), events[|events| - 1], secs);
    }
  }

  // ---- compaction is invisible, over whole runs ----

  function WithoutCompaction(events: seq<Event>): seq<Event> {
    if events == [] then []
    else
      var init := WithoutCompaction(events[..|events| - 1]);
      if events[|events| - 1] == CompactLog then init else init + [events[|events| - 1]]
  }

  /** Equal up to expired messages in the log. */
  ghost predicate Alike(a: Bus, b: Bus) {
    && a.(log := b.log) == b
    && forall since: nat, t: nat :: a.now <= t ==> Pending(a.log, since, t) == Pending(b.log, since, t)
  }

  lemma StepKeepsAlike(a: Bus, b: Bus, e: Event)
    requires Alike(a, b)
    ensures if e == CompactLog then Alike(Step(a, e), b) else Alike(Step(a, e), Step(b, e))
  {
    match e
    case PublishMsg(payload, ttl) =>
      var msg := BusMessage(b.lastSeq + 1, payload, b.now, ttl);
      forall since: nat, t: nat | a.now <= t
        ensures Pending(a.log + [msg], since, t) == Pending(b.log + [msg], since, t)
      {
        SamePendingOneMore(a.log, b.log, msg, since, t);
      }
    case CompactLog =>
      forall since: nat, t: nat | a.now <= t
        ensures Pending(Live(a.log, a.now), since, t) == Pending(b.log, since, t)
      {
        CompactedPending(a.log, a.now, since, t);
      }
    case PollNext(limit) =>
    case Wait(secs) =>
  }

  lemma {:induction false} RunKeepsAlike(start: nat, events: seq<Event>)
    ensures Alike(Run(Start(start), events), Run(Start(start), WithoutCompaction(events)))
  {
    if events != [] {
      var init, e := events[..|events| - 1], events[|events| - 1];
      RunKeepsAlike(start, init);
      StepKeepsAlike(Run(Start(start), init), Run(Start(start), WithoutCompaction(init)), e);
      if e != CompactLog {
        assert (WithoutCompaction(init) + [e])[..|WithoutCompaction(init)|] == WithoutCompaction(init);
      }
    }
  }

  /** Dropping every compaction from a run changes nothing a consumer can see. */
  lemma CompactionIsInvisible(start: nat, events: seq<Event>)
    ensures var a, b := Run(Start(start), events), Run(Start(start), WithoutCompaction(events));
            && a.received == b.received && a.cursor == b.cursor && a.published == b.published
            && forall since: nat, limit: nat :: Poll(a.log, since, limit, a.now) == Poll(b.log, since, limit, b.now)
  {
    RunKeepsAlike(start, events);
  }
}
