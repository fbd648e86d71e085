/**
 The debounce logic of `DebouncedSyncHandler` in git-backup/watcher.py.

 Each block the handler runs under its lock is one atomic step over integer
 timestamps. The handler keeps every timer it ever started, oldest first; the
 last one is the handler's `_timer`. A timer is pending until it is cancelled
 or its callback runs.
 */
module Debounce {
  import opened Text

  datatype Phase = Pending | Cancelled | Fired

  datatype Timer = Timer(due: int, phase: Phase)

  datatype Handler = Handler(debounce: int, lastEventTs: int, timers: seq<Timer>)

  /** A filesystem event as the handler sees it: the path it names and the clock reading. */
  datatype Event = Event(path: string, at: int)

  /** The outcome of a timer callback: the new state and whether a sync pass starts. */
  datatype Flush = Flush(handler: Handler, sync: bool)

  /** Paths containing this text are dropped before the lock is taken. */
  const GitMarker: string := "/.git"

  /** Whether the handler has a timer that can still fire. */
  predicate Live(h: Handler) {
    h.timers != [] && h.timers[|h.timers| - 1].phase == Pending
  }

  /** How many timers are still pending. */
  function PendingCount(timers: seq<Timer>): nat
    decreases |timers|
  {
    if timers == [] then 0
    else PendingCount(timers[..|timers| - 1]) + (if timers[|timers| - 1].phase == Pending then 1 else 0)
  }

  /**
   The handler invariant: the interval is positive, only the most recent
   timer can be pending, and a pending timer is due one interval after the
   last accepted event.
   */
  predicate Valid(h: Handler) {
    && h.debounce > 0
    && (forall i | 0 <= i < |h.timers| - 1 :: h.timers[i].phase != Pending)
    && (Live(h) ==> h.timers[|h.timers| - 1].due == h.lastEventTs + h.debounce)
  }

  /** A fresh handler: `_last_event_ts` is 0 and no timer has been started. */
  function Init(debounce: int): (h: Handler)
    requires debounce > 0
    ensures h.debounce == debounce && h.lastEventTs == 0 && h.timers == []
    ensures Valid(h) && !Live(h) && PendingCount(h.timers) == 0
  {
    Handler(debounce, 0, [])
  }

  /** `"/.git" in path`: a plain substring test, so `/.gitignore` and `/.github/` match as well. */
  function Ignored(path: string): (ignored: bool)
    // a path too short to hold the marker, the empty path included, is accepted
    ensures |path| < |GitMarker| ==> !ignored
  {
    Contains(path, GitMarker)
  }

  /** The marker anywhere in a path drops the event, whatever surrounds it. */
  lemma IgnoredAnywhere(before: string, after: string)
    ensures Ignored(before + GitMarker + after)
  {
    var p := before + GitMarker + after;
    assert p[|before|..|before| + |GitMarker|] == GitMarker;
    assert MatchesAt(p, GitMarker, |before|);
  }

  /** `Timer.cancel()`: stops a pending timer; a timer whose callback already ran is unaffected. */
  function Cancel(t: Timer): (r: Timer)
    ensures r.due == t.due && r.phase != Pending
    // a waiting callback is dropped, never run
    ensures t.phase == Pending ==> r.phase == Cancelled
    // a timer that is no longer waiting is left exactly as it was
    ensures t.phase != Pending ==> r == t
  {
    if t.phase == Pending then t.(phase := Cancelled) else t
  }

  /** `on_any_event`: drop `.git` noise, otherwise record the time and restart the timer. */
  function OnAnyEvent(h: Handler, path: string, now: int): (r: Handler)
    // an ignored event changes nothing
    ensures Ignored(path) ==> r == h
    // an accepted event records `now` and starts exactly one new timer, due one interval later
    ensures !Ignored(path) ==>
      && r.debounce == h.debounce && r.lastEventTs == now
      && |r.timers| == |h.timers| + 1
      && r.timers[|h.timers|] == Timer(now + h.debounce, Pending)
    ensures Valid(h) ==> Valid(r)
    // after an accepted event exactly one timer is live
    ensures !Ignored(path) && Valid(h) ==> Live(r) && PendingCount(r.timers) == 1
  {
    if Ignored(path) then h
    else
      var earlier := CancelCurrent(h.timers);
      EarlierSettled(h);
      var r := Handler(h.debounce, now, earlier + [Timer(now + h.debounce, Pending)]);
      assert r.timers[..|r.timers| - 1] == earlier;
      r
  }

  /** The timers after `_timer.cancel()`: only the most recent one is touched. */
  function CancelCurrent(timers: seq<Timer>): (r: seq<Timer>)
    ensures |r| == |timers|
    ensures forall i | 0 <= i < |timers| - 1 :: r[i] == timers[i]
    ensures timers != [] ==> r[|timers| - 1] == Cancel(timers[|timers| - 1])
  {
    if timers == [] then [] else timers[..|timers| - 1] + [Cancel(timers[|timers| - 1])]
  }

  /** In a valid handler, cancelling the current timer leaves none pending. */
  lemma EarlierSettled(h: Handler)
    ensures Valid(h) ==> forall i | 0 <= i < |h.timers| :: CancelCurrent(h.timers)[i].phase != Pending
    ensures Valid(h) ==> PendingCount(CancelCurrent(h.timers)) == 0
  {
    if Valid(h) {
      var earlier := CancelCurrent(h.timers);
      forall i | 0 <= i < |earlier| ensures earlier[i].phase != Pending {
        if i < |h.timers| - 1 { assert earlier[i] == h.timers[i]; }
      }
      NonePending(earlier);
    }
  }

  /**
   An accepted event touches only `_timer` among the earlier timers: the older
   ones stay exactly as they were, and `_timer` is cancelled. Afterwards none of
   them can fire, and a live `_timer` ends `Cancelled`, not `Fired`.
   */
  lemma EventCancelsEarlier(h: Handler, path: string, now: int)
    requires Valid(h) && !Ignored(path)
    ensures var r := OnAnyEvent(h, path, now);
      && (forall i | 0 <= i < |h.timers| - 1 :: r.timers[i] == h.timers[i])
      && (h.timers != [] ==> r.timers[|h.timers| - 1] == Cancel(h.timers[|h.timers| - 1]))
      && (forall i | 0 <= i < |h.timers| :: r.timers[i].due == h.timers[i].due && r.timers[i].phase != Pending)
      && (Live(h) ==> r.timers[|h.timers| - 1].phase == Cancelled)
  {
    var r := OnAnyEvent(h, path, now);
    forall i | 0 <= i < |h.timers|
      ensures r.timers[i].due == h.timers[i].due && r.timers[i].phase != Pending
    {
      if i < |h.timers| - 1 {
        assert r.timers[i] == h.timers[i];
      } else {
        assert r.timers[i] == Cancel(h.timers[i]);
      }
    }
  }

  lemma {:induction false} NonePending(timers: seq<Timer>)
    requires forall i | 0 <= i < |timers| :: timers[i].phase != Pending
    ensures PendingCount(timers) == 0
    decreases |timers|
  {
    if timers != [] {
      NonePending(timers[..|timers| - 1]);
    }
  }

  /** The test `_flush_if_quiet` makes under the lock: has the handler been quiet for a whole interval? */
  function FlushIfQuiet(h: Handler, now: int): (quiet: bool)
    // in a valid handler with a live timer, the test passes exactly once that timer is due
    ensures Valid(h) && Live(h) ==> (quiet <==> now >= h.timers[|h.timers| - 1].due)
  {
    now - h.lastEventTs >= h.debounce
  }

  /** Timer `i`'s callback runs at `now`: the timer is spent and the quiet test decides on a sync. */
  function TimerFires(h: Handler, i: nat, now: int): (r: Flush)
    requires i < |h.timers| && h.timers[i].phase == Pending
    ensures r.handler.debounce == h.debounce && r.handler.lastEventTs == h.lastEventTs
    ensures |r.handler.timers| == |h.timers| && r.handler.timers[i] == Timer(h.timers[i].due, Fired)
    ensures Valid(h) ==> Valid(r.handler) && !Live(r.handler)
    // in a valid handler the callback starts a sync exactly when it runs on or after the timer's due time
    ensures Valid(h) ==> (r.sync <==> now >= h.timers[i].due)
    // no other timer is touched
    ensures forall j | 0 <= j < |h.timers| && j != i :: r.handler.timers[j] == h.timers[j]
  {
    var r := Flush(h.(timers := h.timers[i := Timer(h.timers[i].due, Fired)]), FlushIfQuiet(h, now));
    r
  }

  /**
   After an accepted event at `at`, the quiet test passes exactly from
   `at + debounce` on. This covers any callback that reads the clock after
   the event released the lock, including one of a cancelled timer whose
   callback was already under way when `cancel()` was called.
   */
  lemma FlushAfterEvent(h: Handler, path: string, at: int, now: int)
    requires !Ignored(path)
    ensures FlushIfQuiet(OnAnyEvent(h, path, at), now) <==> now >= at + h.debounce
  {
  }

  /**
   A later event cancels the live timer and moves the quiet deadline past
   that timer's due time: at the due time the handler is no longer quiet.
   */
  lemma StaleTimerNeverSyncs(h: Handler, path: string, at: int)
    requires Valid(h) && Live(h) && !Ignored(path) && at > h.lastEventTs
    ensures var r := OnAnyEvent(h, path, at);
      && r.timers[|h.timers| - 1].phase == Cancelled
      && !FlushIfQuiet(r, h.timers[|h.timers| - 1].due)
  {
  }

  /** Only one timer is ever pending in a valid handler. */
  lemma {:induction false} AtMostOneLive(h: Handler)
    requires Valid(h)
    ensures PendingCount(h.timers) == (if Live(h) then 1 else 0)
  {
    if h.timers != [] {
      var init := h.timers[..|h.timers| - 1];
      NonePending(init);
    }
  }

  /**
   The handler driven by a stream of events, with each live timer firing at
   its due time. A timer due strictly before the next event fires first; one
   due at the very instant of the next event is cancelled by it. After the
   last event the live timer fires. The result is the times at which sync
   passes start.
   */
  function Run(h: Handler, events: seq<Event>): (syncs: seq<int>)
    requires Valid(h)
    ensures |syncs| <= |events| + 1
    ensures !Live(h) ==> |syncs| <= |events|
    decreases |events|
  {
    var last := |h.timers| - 1;
    if events == [] then
      if Live(h) then
        var f := TimerFires(h, last, h.timers[last].due);
        if f.sync then [h.timers[last].due] else []
      else []
    else
      var e := events[0];
      if Live(h) && h.timers[last].due < e.at then
        var f := TimerFires(h, last, h.timers[last].due);
        (if f.sync then [h.timers[last].due] else []) + Run(OnAnyEvent(f.handler, e.path, e.at), events[1..])
      else Run(OnAnyEvent(h, e.path, e.at), events[1..])
  }

  /** The times of the events the handler accepts, in order. */
  function AcceptedTimes(events: seq<Event>): seq<int>
    decreases |events|
  {
    if events == [] then []
    else (if Ignored(events[0].path) then [] else [events[0].at]) + AcceptedTimes(events[1..])
  }

  predicate SortedEvents(events: seq<Event>) {
    forall i, j | 0 <= i < j < |events| :: events[i].at <= events[j].at
  }

  predicate SortedTimes(ts: seq<int>) {
    forall i, j | 0 <= i < j < |ts| :: ts[i] <= ts[j]
  }

  /**
   The reference schedule: for accepted event times `ts`, a sync starts one
   interval after every event that is followed by more than an interval of
   quiet, and after the last event.
   */
  function QuietEnds(ts: seq<int>, d: int): seq<int>
    decreases |ts|
  {
    if |ts| == 0 then []
    else if |ts| == 1 then [ts[0] + d]
    else (if ts[1] > ts[0] + d then [ts[0] + d] else []) + QuietEnds(ts[1..], d)
  }

  lemma {:induction false} AcceptedAtLeast(events: seq<Event>, t: int)
    requires forall i | 0 <= i < |events| :: events[i].at >= t
    ensures forall j | 0 <= j < |AcceptedTimes(events)| :: AcceptedTimes(events)[j] >= t
    decreases |events|
  {
    if events != [] {
      AcceptedAtLeast(events[1..], t);
    }
  }

  /** `QuietEnds` of a list headed by `x`, when the next time is strictly later than `x + d`. */
  lemma QuietEndsGap(x: int, ys: seq<int>, d: int)
    requires forall j | 0 <= j < |ys| :: ys[j] > x + d
    ensures QuietEnds([x] + ys, d) == [x + d] + QuietEnds(ys, d)
  {
    if ys != [] {
      assert ([x] + ys)[1] == ys[0];
      assert ([x] + ys)[1..] == ys;
    }
  }

  /** The first accepted time, when it is within `d` of `x`, absorbs `x`. */
  lemma QuietEndsNoGap(x: int, y: int, ys: seq<int>, d: int)
    requires y <= x + d
    ensures QuietEnds([x] + ([y] + ys), d) == QuietEnds([y] + ys, d)
  {
    var s := [x] + ([y] + ys);
    assert s[1] == y;
    assert s[1..] == [y] + ys;
  }

  /** The generalisation `RunMatchesQuietEnds` is proved from: a live timer stands for its event. */
  lemma {:induction false} RunFrom(h: Handler, events: seq<Event>)
    requires Valid(h) && SortedEvents(events)
    requires Live(h) ==> forall i | 0 <= i < |events| :: h.lastEventTs <= events[i].at
    ensures Run(h, events) ==
      QuietEnds((if Live(h) then [h.lastEventTs] else []) + AcceptedTimes(events), h.debounce)
    decreases |events|, 1
  {
    if events == [] {
      if Live(h) {
        assert [h.lastEventTs] + [] == [h.lastEventTs];
      }
    } else if Live(h) && h.timers[|h.timers| - 1].due < events[0].at {
      RunFires(h, events);
    } else {
      RunWaits(h, events);
    }
  }

  /** What the events after the first look like in a time-ordered stream. */
  lemma RestOfEvents(events: seq<Event>)
    requires SortedEvents(events) && events != []
    ensures SortedEvents(events[1..])
    ensures forall i | 0 <= i < |events[1..]| :: events[0].at <= events[1..][i].at
    ensures forall j | 0 <= j < |AcceptedTimes(events[1..])| :: AcceptedTimes(events[1..])[j] >= events[0].at
    ensures AcceptedTimes(events) ==
      (if Ignored(events[0].path) then [] else [events[0].at]) + AcceptedTimes(events[1..])
  {
    var rest := events[1..];
    forall i | 0 <= i < |rest| ensures rest[i].at >= events[0].at {
      assert rest[i] == events[i + 1];
    }
    AcceptedAtLeast(rest, events[0].at);
  }

  /** The step of `RunFrom` where the live timer is due before the next event. */
  lemma {:induction false} RunFires(h: Handler, events: seq<Event>)
    requires Valid(h) && SortedEvents(events) && events != []
    requires Live(h) && h.timers[|h.timers| - 1].due < events[0].at
    ensures Run(h, events) == QuietEnds([h.lastEventTs] + AcceptedTimes(events), h.debounce)
    decreases |events|, 0
  {
    var h1 := FireThenAccept(h, events);
    FiresSchedule(h, events, h1);
    RunFrom(h1, events[1..]);
  }

  /**
   The reference schedule's side of `RunFires`: the live timer's event gets its
   own sync, and what follows is the schedule of the state after the next event.
   */
  lemma FiresSchedule(h: Handler, events: seq<Event>, h1: Handler)
    requires Valid(h) && Live(h) && SortedEvents(events) && events != []
    requires h.timers[|h.timers| - 1].due < events[0].at
    requires Live(h1) <==> !Ignored(events[0].path)
    requires Live(h1) ==> h1.lastEventTs == events[0].at
    ensures SortedEvents(events[1..])
    ensures Live(h1) ==> forall i | 0 <= i < |events[1..]| :: h1.lastEventTs <= events[1..][i].at
    ensures QuietEnds([h.lastEventTs] + AcceptedTimes(events), h.debounce) ==
      [h.lastEventTs + h.debounce] + QuietEnds((if Live(h1) then [h1.lastEventTs] else []) + AcceptedTimes(events[1..]), h.debounce)
  {
    var e := events[0];
    RestOfEvents(events);
    var head := if Ignored(e.path) then [] else [e.at];
    assert (if Live(h1) then [h1.lastEventTs] else []) == head;
    assert e.at > h.lastEventTs + h.debounce;
    GapSchedule(h.lastEventTs, h.debounce, head, AcceptedTimes(events[1..]));
  }

  /** Times all later than `x + d` leave the sync for `x` in place ahead of their own schedule. */
  lemma GapSchedule(x: int, d: int, head: seq<int>, acc: seq<int>)
    requires forall j | 0 <= j < |head| :: head[j] > x + d
    requires forall j | 0 <= j < |acc| :: acc[j] > x + d
    ensures QuietEnds([x] + (head + acc), d) == [x + d] + QuietEnds(head + acc, d)
  {
    var ys := head + acc;
    forall j | 0 <= j < |ys| ensures ys[j] > x + d {
      if j >= |head| { assert ys[j] == acc[j - |head|]; }
    }
    QuietEndsGap(x, ys, d);
  }

  /** The live timer fires and syncs, then the next event is handled by a handler with no live timer. */
  lemma FireThenAccept(h: Handler, events: seq<Event>) returns (h1: Handler)
    requires Valid(h) && Live(h) && events != [] && h.timers[|h.timers| - 1].due < events[0].at
    ensures Valid(h1) && h1.debounce == h.debounce
    ensures Live(h1) <==> !Ignored(events[0].path)
    ensures Live(h1) ==> h1.lastEventTs == events[0].at
    ensures Run(h, events) == [h.lastEventTs + h.debounce] + Run(h1, events[1..])
  {
    var last := |h.timers| - 1;
    var f := TimerFires(h, last, h.timers[last].due);
    assert f.sync && h.timers[last].due == h.lastEventTs + h.debounce;
    h1 := OnAnyEvent(f.handler, events[0].path, events[0].at);
    assert Run(h, events) == (if f.sync then [h.timers[last].due] else []) + Run(h1, events[1..]);
  }

  /** The step of `RunFrom` where the next event arrives before the live timer, or there is none. */
  lemma {:induction false} RunWaits(h: Handler, events: seq<Event>)
    requires Valid(h) && SortedEvents(events) && events != []
    requires Live(h) ==> forall i | 0 <= i < |events| :: h.lastEventTs <= events[i].at
    requires !(Live(h) && h.timers[|h.timers| - 1].due < events[0].at)
    ensures Run(h, events) ==
      QuietEnds((if Live(h) then [h.lastEventTs] else []) + AcceptedTimes(events), h.debounce)
    decreases |events|, 0
  {
    var d := h.debounce;
    var e, rest := events[0], events[1..];
    RestOfEvents(events);
    var acc := AcceptedTimes(rest);
    var h1 := OnAnyEvent(h, e.path, e.at);
    assert Run(h, events) == Run(h1, rest);
    if Live(h) {
      forall i | 0 <= i < |rest| ensures h.lastEventTs <= rest[i].at {
        assert rest[i] == events[i + 1];
      }
    }
    RunFrom(h1, rest);
    if Ignored(e.path) {
      assert [] + acc == acc;
    } else if Live(h) {
      QuietEndsNoGap(h.lastEventTs, e.at, acc, d);
    } else {
      assert [] + ([e.at] + acc) == [e.at] + acc;
    }
  }

  /** From a fresh handler, the syncs of a time-ordered event stream are exactly the reference schedule. */
  lemma RunMatchesQuietEnds(d: int, events: seq<Event>)
    requires d > 0 && SortedEvents(events)
    ensures Run(Init(d), events) == QuietEnds(AcceptedTimes(events), d)
  {
    RunFrom(Init(d), events);
    assert [] + AcceptedTimes(events) == AcceptedTimes(events);
  }

  lemma {:induction false} QuietEndsAbove(ts: seq<int>, d: int)
    requires SortedTimes(ts)
    ensures forall s | s in QuietEnds(ts, d) :: |ts| > 0 && s >= ts[0] + d
    decreases |ts|
  {
    if |ts| > 1 {
      QuietEndsAbove(ts[1..], d);
      assert ts[1..][0] == ts[1];
    }
  }

  /** Every sync starts at least one interval after every accepted event that precedes it. */
  lemma {:induction false} SyncsFollowQuiet(ts: seq<int>, d: int)
    requires SortedTimes(ts)
    ensures forall s, i | s in QuietEnds(ts, d) && 0 <= i < |ts| && ts[i] <= s :: s - ts[i] >= d
    decreases |ts|
  {
    if |ts| > 1 {
      var tail := ts[1..];
      SyncsFollowQuiet(tail, d);
      QuietEndsAbove(tail, d);
      forall s, i | s in QuietEnds(ts, d) && 0 <= i < |ts| && ts[i] <= s
        ensures s - ts[i] >= d
      {
        if s in QuietEnds(tail, d) {
          if i > 0 { assert ts[i] == tail[i - 1]; }
        } else {
          assert ts[1] > ts[0] + d && s == ts[0] + d;
        }
      }
    }
  }

  /** Dropping ignored events keeps a time-ordered stream's times in order. */
  lemma {:induction false} SortedAccepted(events: seq<Event>)
    requires SortedEvents(events)
    ensures SortedTimes(AcceptedTimes(events))
    decreases |events|
  {
    if events != [] {
      RestOfEvents(events);
      SortedAccepted(events[1..]);
      var acc := AcceptedTimes(events[1..]);
      var ts := (if Ignored(events[0].path) then [] else [events[0].at]) + acc;
      forall i, j | 0 <= i < j < |ts| ensures ts[i] <= ts[j] {
        var k := |ts| - |acc|;
        assert ts[j] == acc[j - k];
        if i >= k { assert ts[i] == acc[i - k]; }
      }
    }
  }

  /** The time of every accepted event appears among the accepted times. */
  lemma {:induction false} AcceptedMember(events: seq<Event>, k: nat)
    requires k < |events| && !Ignored(events[k].path)
    ensures events[k].at in AcceptedTimes(events)
    decreases k
  {
    var head := if Ignored(events[0].path) then [] else [events[0].at];
    assert AcceptedTimes(events) == head + AcceptedTimes(events[1..]);
    if k > 0 {
      assert events[1..][k - 1] == events[k];
      AcceptedMember(events[1..], k - 1);
    }
  }

  /**
   The handler's syncs keep the debounce promise: a sync never starts less
   than one interval after an accepted event that came at or before it.
   */
  lemma RunSyncsFollowQuiet(d: int, events: seq<Event>)
    requires d > 0 && SortedEvents(events)
    ensures forall s, k | s in Run(Init(d), events) && 0 <= k < |events| && !Ignored(events[k].path) && events[k].at <= s ::
      s - events[k].at >= d
  {
    var ts := AcceptedTimes(events);
    RunMatchesQuietEnds(d, events);
    SortedAccepted(events);
    SyncsFollowQuiet(ts, d);
    forall s, k | s in Run(Init(d), events) && 0 <= k < |events| && !Ignored(events[k].path) && events[k].at <= s
      ensures s - events[k].at >= d
    {
      AcceptedMember(events, k);
      var i :| 0 <= i < |ts| && ts[i] == events[k].at;
    }
  }

  /** There is a sync whenever there was an event, the last one an interval after the last event. */
  lemma {:induction false} FinalSync(ts: seq<int>, d: int)
    ensures |QuietEnds(ts, d)| <= |ts|
    ensures ts != [] ==> |QuietEnds(ts, d)| > 0 && QuietEnds(ts, d)[|QuietEnds(ts, d)| - 1] == ts[|ts| - 1] + d
    decreases |ts|
  {
    if |ts| > 1 {
      FinalSync(ts[1..], d);
    }
  }

  /** A burst whose gaps never exceed the interval produces a single sync, one interval after its last event. */
  lemma {:induction false} BurstSyncsOnce(ts: seq<int>, d: int)
    requires ts != []
    requires forall i | 0 <= i < |ts| - 1 :: ts[i + 1] <= ts[i] + d
    ensures QuietEnds(ts, d) == [ts[|ts| - 1] + d]
    decreases |ts|
  {
    if |ts| > 1 {
      var tail := ts[1..];
      assert forall i | 0 <= i < |tail| :: tail[i] == ts[i + 1];
      BurstSyncsOnce(tail, d);
    }
  }

  /** Events at 0, 1 and 2 with a 5-second interval give one sync, at 7. */
  lemma BurstExample()
    ensures Run(Init(5), [Event("/w/a", 0), Event("/w/b", 1), Event("/w/c", 2)]) == [7]
  {
    var evs := [Event("/w/a", 0), Event("/w/b", 1), Event("/w/c", 2)];
    RunMatchesQuietEnds(5, evs);
    assert AcceptedTimes(evs) == [0, 1, 2] by {
      assert evs[1..] == [Event("/w/b", 1), Event("/w/c", 2)];
      assert evs[1..][1..] == [Event("/w/c", 2)];
      assert evs[1..][1..][1..] == [];
    }
    BurstSyncsOnce([0, 1, 2], 5);
  }

  /** Events at 0 and 10 with a 5-second interval give two syncs, at 5 and 15. */
  lemma SpacedExample()
    ensures Run(Init(5), [Event("/w/a", 0), Event("/w/b", 10)]) == [5, 15]
  {
    var evs := [Event("/w/a", 0), Event("/w/b", 10)];
    RunMatchesQuietEnds(5, evs);
    assert AcceptedTimes(evs) == [0, 10] by {
      assert evs[1..] == [Event("/w/b", 10)];
      assert evs[1..][1..] == [];
    }
    assert [0, 10][1..] == [10];
  }

  /** The substring test also drops events for `.gitignore`, which is not inside `.git`. */
  lemma GitignoreIsIgnored()
    ensures Ignored("/src/.gitignore")
    ensures OnAnyEvent(Init(5), "/src/.gitignore", 3) == Init(5)
  {
    var p := "/src/.gitignore";
    assert p[4..9] == GitMarker;
    assert MatchesAt(p, GitMarker, 4);
  }
}
