/**
  Whole runs of the file poller: safety, the end of closing, and what the user is
  told.
*/
module FsPollRuns {
  import opened Bits
  import opened Collections
  import opened FsPollSpec

  // ----- safety -----

  /** A run of events, each possible and in the discipline when it happens. */
  ghost predicate DisciplinedRun(s: State, es: seq<Event>)
    decreases |es|
  {
    es == []
    || (Enabled(s, es[0]) && Disciplined(s, es[0])
        && (Step(s, es[0]).Some? ==> DisciplinedRun(Step(s, es[0]).value, es[1..])))
  }

  ghost function Run(s: State, es: seq<Event>): Option<State>
    requires DisciplinedRun(s, es)
    decreases |es|
  {
    if es == [] then Some(s)
    else
      match Step(s, es[0])
      case None => None
      case Some(t) => Run(t, es[1..])
  }

  /** In every disciplined run no assertion fails, every context has exactly one thing in
      progress, none is freed twice, and a closed poller becomes close-pending exactly once,
      when its list is empty. */
  lemma {:induction false} RunSafe(s: State, es: seq<Event>)
    requires Inv(s) && DisciplinedRun(s, es)
    ensures Run(s, es).Some? && Inv(Run(s, es).value)
    decreases |es|
  {
    hide Inv, Enabled, Disciplined, Step;
    if es != [] {
      StepKeepsInv(s, es[0]);
      RunSafe(Step(s, es[0]).value, es[1..]);
    }
  }

  lemma InitialInv()
    ensures Inv(INITIAL)
  {
  }

  /** Outside the discipline: once a stat has completed in bad order, letting the time pass until
      the stray timer fires ends in the failing assertion of `timer_cb`. */
  lemma BadCompletionAborts(s: State, i: nat, status: int, stat: Stat, action: Action)
    returns (wait: Event, fire: Event)
    requires Inv(s) && Enabled(s, StatDone(i, status, stat, action)) && !GoodCompletion(s, i, status, stat, action)
    ensures var t := PollCb(s, i, status, stat, action);
      && t.Some? && Enabled(t.value, wait) && Step(t.value, wait).Some?
      && Enabled(Step(t.value, wait).value, fire) && Step(Step(t.value, wait).value, fire) == None
  {
    hide Inv, PollCb, GoodCompletion;
    BadCompletionArms(s, i, status, stat, action);
    var t := PollCb(s, i, status, stat, action).value;
    var j := if Reported(s.ctxs[i], status, stat) then Shifted(i, action) else i;
    var deadline := t.ctxs[j].timer.deadline;
    wait, fire := Tick(if t.now < deadline then deadline - t.now else 0), TimerFires(j);
  }

  /** Such a run exists: stop and start again while the first stat is in flight. */
  lemma RestartTooSoon(stat: Stat)
    ensures var s1 := Start(INITIAL, 1000, 0);
      var s2 := Stop(s1).value;
      var s3 := Start(s2, 1000, 0);
      && Stop(s1).Some? && Inv(s3)
      && Enabled(s3, StatDone(1, 0, stat, Nothing)) && !GoodCompletion(s3, 1, 0, stat, Nothing)
  {
  }

  // ----- closing comes to an end -----

  /** Completions that the contexts still wait for: a stat in flight is followed by the closing of
      the timer. */
  ghost function Remaining(ctxs: seq<Ctx>): nat {
    if ctxs == [] then 0 else (if ctxs[0].inFlight then 2 else 1) + Remaining(ctxs[1..])
  }

  lemma {:induction false} RemainingConcat(a: seq<Ctx>, b: seq<Ctx>)
    ensures Remaining(a + b) == Remaining(a) + Remaining(b)
  {
    if a == [] {
      assert a + b == b;
    } else {
      assert (a + b)[1..] == a[1..] + b;
      RemainingConcat(a[1..], b);
    }
  }

  lemma RemainingSplit(ctxs: seq<Ctx>, i: nat)
    requires i < |ctxs|
    ensures Remaining(ctxs) == Remaining(ctxs[..i]) + (if ctxs[i].inFlight then 2 else 1) + Remaining(ctxs[i + 1..])
  {
    assert ctxs == ctxs[..i] + ([ctxs[i]] + ctxs[i + 1..]);
    RemainingConcat(ctxs[..i], [ctxs[i]] + ctxs[i + 1..]);
    RemainingConcat([ctxs[i]], ctxs[i + 1..]);
    assert [ctxs[i]][1..] == [];
  }

  lemma RemainingUpdate(ctxs: seq<Ctx>, i: nat, c: Ctx)
    requires i < |ctxs| && ctxs[i].inFlight && !c.inFlight
    ensures Remaining(ctxs[i := c]) == Remaining(ctxs) - 1
  {
    hide Remaining;
    var t := ctxs[i := c];
    RemainingSplit(ctxs, i);
    RemainingSplit(t, i);
    assert t[..i] == ctxs[..i] && t[i + 1..] == ctxs[i + 1..];
  }

  lemma RemainingRemove(ctxs: seq<Ctx>, i: nat)
    requires i < |ctxs| && !ctxs[i].inFlight
    ensures Remaining(ctxs[..i] + ctxs[i + 1..]) == Remaining(ctxs) - 1
  {
    hide Remaining;
    RemainingSplit(ctxs, i);
    RemainingConcat(ctxs[..i], ctxs[i + 1..]);
  }

  /** The requests and timers of a closing poller complete. */
  predicate IsCompletion(e: Event) {
    e.StatDone? || e.TimerClosed?
  }

  /** While a closing poller has contexts, something is due to complete; no timer fires any more;
      and every completion brings the end one step closer. */
  lemma ClosingStep(s: State, e: Event)
    requires Inv(s) && s.closing && Enabled(s, e)
    ensures !e.TimerFires?
    ensures IsCompletion(e) ==>
      && Disciplined(s, e) && Step(s, e).Some? && Step(s, e).value.closing
      && Remaining(Step(s, e).value.ctxs) == Remaining(s.ctxs) - 1
  {
    hide Accounted, Remaining, Deadline;
    match e {
      case StatDone(i, status, stat, action) =>
        var c := s.ctxs[i].(inFlight := false);
        var ctxs := s.ctxs[i := c];
        RemainingUpdate(s.ctxs, i, c.(timer := Closing));
        assert ctxs[i := c.(timer := Closing)] == s.ctxs[i := c.(timer := Closing)];
      case TimerClosed(i) => RemainingRemove(s.ctxs, i);
      case Tick(_) =>
      case CallStart(_, _) =>
      case CallStop =>
      case CallClose =>
      case TimerFires(_) =>
    }
  }

  lemma ClosingNotStuck(s: State)
    requires Inv(s) && s.closing && s.ctxs != []
    ensures Enabled(s, StatDone(0, 0, ZERO_STATBUF, Nothing)) || Enabled(s, TimerClosed(0))
  {
  }

  /** Completions that happen one after the other. */
  ghost predicate Completions(s: State, es: seq<Event>)
    decreases |es|
  {
    es == [] || (IsCompletion(es[0]) && Enabled(s, es[0])
                 && (Step(s, es[0]).Some? ==> Completions(Step(s, es[0]).value, es[1..])))
  }

  ghost function Complete(s: State, es: seq<Event>): Option<State>
    requires Completions(s, es)
    decreases |es|
  {
    if es == [] then Some(s)
    else
      match Step(s, es[0])
      case None => None
      case Some(t) => Complete(t, es[1..])
  }

  /** However the outstanding requests and timers of a closing poller complete, at most
      `Remaining` events are left, and with the last of them the poller is close-pending. */
  lemma {:induction false} ClosingEnds(s: State, es: seq<Event>)
    requires Inv(s) && s.closing && Completions(s, es)
    ensures |es| <= Remaining(s.ctxs) && Complete(s, es).Some?
    ensures var t := Complete(s, es).value;
      Inv(t) && t.closing && Remaining(t.ctxs) == Remaining(s.ctxs) - |es|
      && (t.closePending == 1 <==> |es| == Remaining(s.ctxs))
    decreases |es|
  {
    hide Inv, Step, Enabled, Remaining;
    if es == [] {
      RemainingNone(s);
    } else {
      ClosingStep(s, es[0]);
      StepKeepsInv(s, es[0]);
      ClosingEnds(Step(s, es[0]).value, es[1..]);
    }
  }

  lemma RemainingNone(s: State)
    requires Inv(s) && s.closing
    ensures Remaining(s.ctxs) == 0 <==> s.closePending == 1
  {
    hide Accounted;
  }

  // ----- what one event does -----

  /** The same context, with the same last outcome. */
  predicate SameNews(a: Ctx, b: Ctx) {
    a.id == b.id && a.busyPolling == b.busyPolling && a.statbuf == b.statbuf
  }

  /** `poll_cb` reports and remembers the outcome if the poller is active.  The other contexts are
      left alone. */
  lemma PollReports(s: State, i: nat, status: int, stat: Stat, action: Action)
    requires Inv(s) && i < |s.ctxs| && s.ctxs[i].inFlight && status <= 0 && GoodCompletion(s, i, status, stat, action)
    ensures PollCb(s, i, status, stat, action).Some?
    ensures var t := PollCb(s, i, status, stat, action).value;
      var c := s.ctxs[i];
      && i < |t.ctxs| == |s.ctxs| && t.nextId == s.nextId
      && t.reports == s.reports + (if s.active && Reported(c, status, stat) then [TheReport(c, status, stat)] else [])
      && SameNews(t.ctxs[i], if s.active then Observed(c, status, stat) else c)
      && (forall k: nat | k < |s.ctxs| && k != i :: SameNews(t.ctxs[k], s.ctxs[k]))
  {
    hide Accounted, Deadline, StatbufEq;
  }

  /** In the end the context's timer is armed for the next deadline or closed, and no other timer is
      armed. */
  lemma PollArms(s: State, i: nat, status: int, stat: Stat, action: Action)
    requires Inv(s) && i < |s.ctxs| && s.ctxs[i].inFlight && status <= 0 && GoodCompletion(s, i, status, stat, action)
    ensures PollCb(s, i, status, stat, action).Some?
    ensures var t := PollCb(s, i, status, stat, action).value;
      var c := s.ctxs[i];
      && i < |t.ctxs| && t.ctxs[i].interval == c.interval && t.ctxs[i].startTime == c.startTime
      && t.ctxs[i].timer == (if t.active then Armed(Deadline(s.now, c.interval, c.startTime)) else Closing)
      && (forall k: nat | k < |t.ctxs| && k != i :: !t.ctxs[k].timer.Armed?)
  {
    hide Accounted, Deadline, PollCb, GoodCompletion, Inv;
    var v := PollReachesOut(s, i, status, stat, action);
  }

  /** No other event reports anything. */
  lemma OthersSilent(s: State, e: Event)
    requires Enabled(s, e) && !e.StatDone? && Step(s, e).Some?
    ensures Step(s, e).value.reports == s.reports && s.nextId <= Step(s, e).value.nextId
  {
  }

  /** No other event changes what a context has observed; a new context has observed nothing. */
  lemma OthersObserveNothing(s: State, e: Event, k: nat)
    requires Enabled(s, e) && !e.StatDone? && Step(s, e).Some? && k < |Step(s, e).value.ctxs|
    ensures var t := Step(s, e).value;
      ((t.ctxs[k].id == s.nextId < t.nextId && t.ctxs[k].busyPolling == 0 && t.ctxs[k].statbuf == ZERO_STATBUF)
       || exists m: nat | m < |s.ctxs| :: SameNews(t.ctxs[k], s.ctxs[m]))
  {
    var t := Step(s, e).value;
    match e {
      case CallStart(_, failure) =>
        if s.active || failure < 0 {
          assert SameNews(t.ctxs[k], s.ctxs[k]);
        } else if k > 0 {
          assert SameNews(t.ctxs[k], s.ctxs[k - 1]);
        }
      case TimerClosed(i) => assert SameNews(t.ctxs[k], s.ctxs[if k < i then k else k + 1]);
      case Tick(_) => assert SameNews(t.ctxs[k], s.ctxs[k]);
      case CallStop => assert SameNews(t.ctxs[k], s.ctxs[k]);
      case CallClose => assert SameNews(t.ctxs[k], s.ctxs[k]);
      case TimerFires(_) => assert SameNews(t.ctxs[k], s.ctxs[k]);
    }
  }

  /** The deadline is the next time on the grid of the start time, unless that is beyond the largest
      time. */
  lemma DeadlineOnGrid(now: nat, interval: nat, startTime: nat)
    requires interval > 0 && startTime <= now < U64
    ensures var g := NextOnGrid(now, interval, startTime);
      && now < g <= now + interval && (g - startTime) % interval == 0
      && Deadline(now, interval, startTime) == (if g < U64 then g else U64 - 1)
  {
    var e := now - startTime;
    OnGrid(e, interval);
    assert NextOnGrid(now, interval, startTime) - startTime == e + interval - e % interval;
  }

  /** No time on the grid lies between now and the next one. */
  lemma NextIsFirst(now: nat, interval: nat, startTime: nat, d: nat)
    requires interval > 0 && startTime <= now < U64
    requires now < d && (d - startTime) % interval == 0
    ensures NextOnGrid(now, interval, startTime) <= d
  {
    DeadlineOnGrid(now, interval, startTime);
    var g := NextOnGrid(now, interval, startTime);
    if d < g {
      NoMultipleBetween(d - startTime, g - startTime, interval);
    }
  }

  lemma NoMultipleBetween(a: nat, b: nat, m: nat)
    requires m > 0 && a % m == 0 && b % m == 0 && a < b
    ensures a + m <= b
  {
    assert a == m * (a / m) && b == m * (b / m);
    var p, q := a / m, b / m;
    MulOrder(m, q, p);
    MulOrder(m, p + 1, q);
  }

  lemma MulOrder(m: int, p: int, q: int)
    requires m > 0
    ensures p <= q ==> m * p <= m * q
    ensures m * (p + 1) == m * p + m
  {
  }

  lemma OnGrid(e: nat, interval: nat)
    requires interval > 0
    ensures (e + interval - e % interval) % interval == 0
  {
    var q, r := e / interval, e % interval;
    assert e == interval * q + r;
    MulNext(interval, q);
    ModUnique(e + interval - r, interval, q + 1, 0);
  }

  lemma MulNext(m: int, q: int)
    ensures m * q + m == (q + 1) * m
  {
  }
}
