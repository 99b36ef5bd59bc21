/**
  What the user of a file poller is told in the course of a run, and when the poller asks
  again.
*/
module FsPollNews {
  import opened Bits
  import opened FsPollSpec
  import opened FsPollRuns

  // ----- the account that the user should get -----

  /** How a stat ended; an error has no stat. */
  datatype Outcome = Outcome(status: int, stat: Stat)

  /** What of a stat is watched: everything but the number of links, the device of a special file,
      the blocks and the time of the last access. */
  function Watched(s: Stat): Stat {
    s.(nlink := 0, rdev := 0, blksize := 0, blocks := 0, atim := Timespec(0, 0))
  }

  lemma EqualIsWatched(a: Stat, b: Stat)
    ensures StatbufEq(a, b) <==> Watched(a) == Watched(b)
  {
  }

  /** The same to the user: the same error, or stats that agree in everything that is watched. */
  predicate Same(a: Outcome, b: Outcome) {
    a.status == b.status && (a.status == 0 ==> Watched(a.stat) == Watched(b.stat))
  }

  /** A first outcome is news when it is an error, a later one when it differs from the one
      before. */
  predicate IsNews(before: seq<Outcome>, o: Outcome) {
    if before == [] then o.status != 0 else !Same(before[|before| - 1], o)
  }

  /** The stat of the last success. */
  function LastStat(h: seq<Outcome>): Stat {
    if h == [] then ZERO_STATBUF
    else if h[|h| - 1].status == 0 then h[|h| - 1].stat
    else LastStat(h[..|h| - 1])
  }

  /** The reports that a context with these outcomes owes the user. */
  function News(id: nat, h: seq<Outcome>): seq<Report> {
    if h == [] then []
    else
      var before, o := h[..|h| - 1], h[|h| - 1];
      News(id, before) + (if IsNews(before, o) then [Report(id, o.status, LastStat(before), o.stat)] else [])
  }

  /** The last report is the latest news: it agrees with the last outcome, or nothing is reported
      because all outcomes are successes with equal stats. */
  ghost predicate Current(reports: seq<Report>, h: seq<Outcome>) {
    h != [] ==>
      if reports == [] then forall k: nat | k < |h| :: h[k].status == 0 && Same(h[k], h[|h| - 1])
      else Same(Outcome(reports[|reports| - 1].status, reports[|reports| - 1].curr), h[|h| - 1])
  }

  lemma {:induction false} NewsIsCurrent(id: nat, h: seq<Outcome>)
    ensures Current(News(id, h), h)
  {
    hide Watched, LastStat;
    if |h| > 1 {
      var before, o := h[..|h| - 1], h[|h| - 1];
      NewsIsCurrent(id, before);
      SameIsEquality(o);
    } else if |h| == 1 {
      SameIsEquality(h[0]);
    }
  }

  lemma SameIsEquality(r: Outcome)
    ensures Same(r, r)
    ensures forall a, b :: Same(a, b) && Same(b, r) ==> Same(a, r)
  {
  }

  // ----- what happens in a run -----

  /** The reports about one context. */
  function ReportsOf(reports: seq<Report>, id: nat): seq<Report> {
    if reports == [] then []
    else
      var r := reports[|reports| - 1];
      ReportsOf(reports[..|reports| - 1], id) + (if r.id == id then [r] else [])
  }

  /** The stat of the context that completes in this event while the poller is active, if one
      does. */
  function OutcomeOf(s: State, e: Event, id: nat): seq<Outcome>
    requires Enabled(s, e)
  {
    if e.StatDone? && s.active && s.ctxs[e.i].id == id
    then [Outcome(e.status, if e.status != 0 then ZERO_STATBUF else e.stat)]
    else []
  }

  /** The outcomes of the context in a run. */
  ghost function History(s: State, es: seq<Event>, id: nat): seq<Outcome>
    requires DisciplinedRun(s, es)
    decreases |es|
  {
    if es == [] then []
    else
      OutcomeOf(s, es[0], id)
      + match Step(s, es[0])
        case None => []
        case Some(t) => History(t, es[1..], id)
  }

  /** `busy_polling` and `statbuf` are those of the last outcome and the last success. */
  ghost predicate Remembers(c: Ctx, h: seq<Outcome>) {
    && c.statbuf == LastStat(h)
    && c.busyPolling == if h == [] then 0 else if h[|h| - 1].status != 0 then h[|h| - 1].status else 1
  }

  ghost predicate Plausible(h: seq<Outcome>) {
    forall k: nat | k < |h| :: h[k].status <= 0
  }

  /** So far the context had the outcomes `h`. */
  ghost predicate Informed(s: State, id: nat, h: seq<Outcome>) {
    && Plausible(h) && (id >= s.nextId ==> h == [])
    && ReportsOf(s.reports, id) == News(id, h)
    && forall k: nat | k < |s.ctxs| && s.ctxs[k].id == id :: Remembers(s.ctxs[k], h)
  }

  lemma ReportedIsNews(c: Ctx, h: seq<Outcome>, status: int, stat: Stat)
    requires Remembers(c, h) && Plausible(h) && status <= 0
    ensures var o := Outcome(status, if status != 0 then ZERO_STATBUF else stat);
      && (Reported(c, status, stat) <==> IsNews(h, o))
      && TheReport(c, status, stat) == Report(c.id, o.status, LastStat(h), o.stat)
      && Remembers(Observed(c, status, stat), h + [o]) && Plausible(h + [o])
  {
    var o := Outcome(status, if status != 0 then ZERO_STATBUF else stat);
    EqualIsWatched(c.statbuf, stat);
    hide StatbufEq, Watched;
    assert (h + [o])[..|h|] == h;
    if h != [] && h[|h| - 1].status == 0 {
      assert LastStat(h) == h[|h| - 1].stat;
    }
  }

  lemma NewsSnoc(id: nat, h: seq<Outcome>, o: Outcome)
    ensures News(id, h + [o]) ==
      News(id, h) + (if IsNews(h, o) then [Report(id, o.status, LastStat(h), o.stat)] else [])
  {
    hide IsNews, LastStat;
    assert (h + [o])[..|h|] == h;
  }

  lemma ReportsSnoc(reports: seq<Report>, r: Report, id: nat)
    ensures ReportsOf(reports + [r], id) == ReportsOf(reports, id) + (if r.id == id then [r] else [])
  {
    assert (reports + [r])[..|reports|] == reports;
  }

  /** The completion of a stat. */
  lemma StatInforms(s: State, e: Event, id: nat, h: seq<Outcome>)
    requires Inv(s) && Informed(s, id, h) && e.StatDone? && Enabled(s, e) && Disciplined(s, e) && Step(s, e).Some?
    ensures Informed(Step(s, e).value, id, h + OutcomeOf(s, e, id))
  {
    hide PollCb, Reported, Plausible, IsNews, GoodCompletion, LastStat, News, ReportsOf;
    var c, t := s.ctxs[e.i], Step(s, e).value;
    PollReports(s, e.i, e.status, e.stat, e.action);
    ReportsSnoc(s.reports, TheReport(c, e.status, e.stat), id);
    assert s.reports + [] == s.reports;
    if s.active && c.id == id {
      ReportedIsNews(c, h, e.status, e.stat);
      NewsSnoc(id, h, OutcomeOf(s, e, id)[0]);
    } else {
      assert h + [] == h;
    }
  }

  /** All but the completion of a stat. */
  lemma OtherInforms(s: State, e: Event, id: nat, h: seq<Outcome>)
    requires Enabled(s, e) && !e.StatDone? && Step(s, e).Some? && Informed(s, id, h)
    ensures Informed(Step(s, e).value, id, h)
  {
    hide Step, Enabled, News, ReportsOf;
    var t := Step(s, e).value;
    OthersSilent(s, e);
    forall k: nat | k < |t.ctxs| && t.ctxs[k].id == id ensures Remembers(t.ctxs[k], h) {
      OthersObserveNothing(s, e, k);
    }
  }

  /** An event adds its outcome and its report to the account of every context. */
  lemma StepInforms(s: State, e: Event, id: nat, h: seq<Outcome>)
    requires Inv(s) && Enabled(s, e) && Disciplined(s, e) && Step(s, e).Some? && Informed(s, id, h)
    ensures Informed(Step(s, e).value, id, h + OutcomeOf(s, e, id))
  {
    hide Inv, Enabled, Disciplined, Step, Informed;
    if e.StatDone? {
      StatInforms(s, e, id, h);
    } else {
      OtherInforms(s, e, id, h);
      assert h + [] == h;
    }
  }

  /** The account is kept over any run. */
  lemma {:induction false} RunInforms(s: State, es: seq<Event>, id: nat, h: seq<Outcome>)
    requires Inv(s) && DisciplinedRun(s, es) && Informed(s, id, h)
    ensures Run(s, es).Some? && Informed(Run(s, es).value, id, h + History(s, es, id))
    decreases |es|
  {
    hide Inv, Enabled, Disciplined, Step, Informed, OutcomeOf;
    if es == [] {
      assert h + [] == h;
    } else {
      StepKeepsInv(s, es[0]);
      StepInforms(s, es[0], id, h);
      var t, o := Step(s, es[0]).value, OutcomeOf(s, es[0], id);
      RunInforms(t, es[1..], id, h + o);
      assert h + History(s, es, id) == h + o + History(t, es[1..], id);
    }
  }

  lemma InformedAtStart(id: nat)
    ensures Informed(INITIAL, id, [])
  {
  }

  lemma InformedMeans(s: State, id: nat, h: seq<Outcome>)
    requires Informed(s, id, h)
    ensures ReportsOf(s.reports, id) == News(id, h) && Current(ReportsOf(s.reports, id), h)
    ensures forall k: nat | k < |s.ctxs| && s.ctxs[k].id == id :: Remembers(s.ctxs[k], h)
  {
    hide Current, Remembers, ReportsOf;
    NewsIsCurrent(id, h);
  }

  /** In every disciplined run of a new poller the user hears about each context exactly what its
      stats gave reason to report, in order and with the last stat before, and the last report
      is current. */
  lemma UserIsInformed(es: seq<Event>, id: nat)
    requires DisciplinedRun(INITIAL, es)
    ensures Run(INITIAL, es).Some?
    ensures var t, h := Run(INITIAL, es).value, History(INITIAL, es, id);
      && ReportsOf(t.reports, id) == News(id, h) && Current(ReportsOf(t.reports, id), h)
      && forall k: nat | k < |t.ctxs| && t.ctxs[k].id == id :: Remembers(t.ctxs[k], h)
  {
    hide Run, DisciplinedRun, History, Informed, Inv, Current, Remembers, ReportsOf, News;
    InitialInv();
    InformedAtStart(id);
    RunInforms(INITIAL, es, id, []);
    assert [] + History(INITIAL, es, id) == History(INITIAL, es, id);
    InformedMeans(Run(INITIAL, es).value, id, History(INITIAL, es, id));
  }

  // ----- what the user asked for -----

  /** The interval that a context was started with, and when its last stat was started. */
  datatype Asked = Asked(interval: nat, since: nat)

  function AskedBy(s: State, e: Event, id: nat, a: Asked): Asked
    requires Enabled(s, e)
  {
    match e
    case CallStart(interval, failure) => if !s.active && failure == 0 && id == s.nextId then Asked(interval, s.now) else a
    case TimerFires(i) => if s.ctxs[i].id == id then Asked(a.interval, s.now) else a
    case _ => a
  }

  ghost function AskedIn(s: State, es: seq<Event>, id: nat, a: Asked): Asked
    requires DisciplinedRun(s, es)
    decreases |es|
  {
    if es == [] then a
    else
      match Step(s, es[0])
      case None => a
      case Some(t) => AskedIn(t, es[1..], id, AskedBy(s, es[0], id, a))
  }

  /** An interval of zero is taken for one. */
  predicate Clocked(c: Ctx, a: Asked) {
    c.interval == (if a.interval == 0 then 1 else a.interval) && c.startTime == a.since
  }

  ghost predicate AllClocked(s: State, id: nat, a: Asked) {
    forall k: nat | k < |s.ctxs| && s.ctxs[k].id == id :: Clocked(s.ctxs[k], a)
  }

  predicate SameAsking(a: Ctx, b: Ctx) {
    a.id == b.id && a.interval == b.interval && a.startTime == b.startTime
  }

  lemma PollKeepsAsking(s: State, i: nat, status: int, stat: Stat, action: Action)
    requires Inv(s) && i < |s.ctxs| && s.ctxs[i].inFlight && status <= 0 && GoodCompletion(s, i, status, stat, action)
    requires PollCb(s, i, status, stat, action).Some?
    ensures var t := PollCb(s, i, status, stat, action).value;
      |t.ctxs| == |s.ctxs| && forall k: nat | k < |s.ctxs| :: SameAsking(t.ctxs[k], s.ctxs[k])
  {
    hide Accounted, Deadline, StatbufEq;
  }

  lemma StepClocks(s: State, e: Event, id: nat, a: Asked)
    requires Inv(s) && Enabled(s, e) && Disciplined(s, e) && Step(s, e).Some? && AllClocked(s, id, a)
    ensures AllClocked(Step(s, e).value, id, AskedBy(s, e, id, a))
  {
    var t := Step(s, e).value;
    if e.StatDone? {
      hide PollCb, Clocked, Inv, GoodCompletion;
      PollKeepsAsking(s, e.i, e.status, e.stat, e.action);
      forall k: nat | k < |t.ctxs| && t.ctxs[k].id == id ensures Clocked(t.ctxs[k], a) {
        ClockedAlso(s.ctxs[k], t.ctxs[k], a);
      }
    } else {
      OtherClocks(s, e, id, a);
    }
  }

  lemma ClockedAlso(c: Ctx, d: Ctx, a: Asked)
    requires SameAsking(d, c)
    ensures Clocked(d, a) <==> Clocked(c, a)
  {
  }

  lemma OtherClocks(s: State, e: Event, id: nat, a: Asked)
    requires Inv(s) && Enabled(s, e) && !e.StatDone? && Step(s, e).Some? && AllClocked(s, id, a)
    ensures AllClocked(Step(s, e).value, id, AskedBy(s, e, id, a))
  {
    var t := Step(s, e).value;
    match e {
      case CallStart(interval, failure) =>
        if !s.active && failure == 0 {
          forall k: nat | k < |t.ctxs| && t.ctxs[k].id == id ensures Clocked(t.ctxs[k], AskedBy(s, e, id, a)) {
            if k > 0 {
              assert t.ctxs[k] == s.ctxs[k - 1] && s.ctxs[k - 1].id < s.nextId;
            }
          }
        }
      case TimerClosed(i) =>
        forall k: nat | k < |t.ctxs| && t.ctxs[k].id == id ensures Clocked(t.ctxs[k], a) {
          assert t.ctxs[k] == s.ctxs[if k < i then k else k + 1];
        }
      case Tick(_) =>
      case CallStop =>
      case CallClose =>
      case TimerFires(i) =>
    }
  }

  lemma {:induction false} RunClocks(s: State, es: seq<Event>, id: nat, a: Asked)
    requires Inv(s) && DisciplinedRun(s, es) && AllClocked(s, id, a)
    ensures Run(s, es).Some? && AllClocked(Run(s, es).value, id, AskedIn(s, es, id, a))
    decreases |es|
  {
    hide Inv, Enabled, Disciplined, Step, AllClocked, AskedBy;
    if es != [] {
      StepKeepsInv(s, es[0]);
      StepClocks(s, es[0], id, a);
      RunClocks(Step(s, es[0]).value, es[1..], id, AskedBy(s, es[0], id, a));
    }
  }

  /** In every disciplined run of a new poller a context keeps the interval that it was started
      with, and the time at which its last stat was started: by the call that created it, or when
      its timer fired. */
  lemma AskedIsKept(es: seq<Event>, id: nat)
    requires DisciplinedRun(INITIAL, es)
    ensures Run(INITIAL, es).Some?
    ensures var t, a := Run(INITIAL, es).value, AskedIn(INITIAL, es, id, Asked(0, 0));
      forall k: nat | k < |t.ctxs| && t.ctxs[k].id == id :: Clocked(t.ctxs[k], a)
  {
    InitialInv();
    assert AllClocked(INITIAL, id, Asked(0, 0));
    RunClocks(INITIAL, es, id, Asked(0, 0));
  }

  // ----- when the poller asks again -----

  /** An armed timer fires on the grid of the time at which the last stat was started, or at the
      largest time. */
  ghost predicate OnTime(c: Ctx) {
    c.timer.Armed? ==>
      c.interval > 0
      && (c.timer.deadline == U64 - 1
          || (c.startTime < c.timer.deadline && (c.timer.deadline - c.startTime) % c.interval == 0))
  }

  ghost predicate AllOnTime(s: State) {
    forall k: nat | k < |s.ctxs| :: OnTime(s.ctxs[k])
  }

  /** No other event arms a timer. */
  lemma OthersArmNothing(s: State, e: Event, k: nat)
    requires Enabled(s, e) && !e.StatDone? && Step(s, e).Some? && k < |Step(s, e).value.ctxs|
    ensures var c := Step(s, e).value.ctxs[k]; c.timer.Armed? ==> c in s.ctxs
  {
    var t := Step(s, e).value;
    match e {
      case CallStart(_, failure) =>
        if !s.active && failure == 0 && k > 0 {
          assert t.ctxs[k] == s.ctxs[k - 1];
        }
      case TimerClosed(i) => assert t.ctxs[k] == s.ctxs[if k < i then k else k + 1];
      case Tick(_) =>
      case CallStop =>
      case CallClose =>
      case TimerFires(_) =>
    }
  }

  lemma StepOnTime(s: State, e: Event)
    requires Inv(s) && Enabled(s, e) && Disciplined(s, e) && Step(s, e).Some? && AllOnTime(s)
    ensures AllOnTime(Step(s, e).value)
  {
    hide Inv, Enabled, Disciplined, Step;
    if e.StatDone? {
      StatOnTime(s, e);
    } else {
      var t := Step(s, e).value;
      forall k: nat | k < |t.ctxs| && t.ctxs[k].timer.Armed? ensures OnTime(t.ctxs[k]) {
        OthersArmNothing(s, e, k);
      }
    }
  }

  lemma StatOnTime(s: State, e: Event)
    requires Inv(s) && e.StatDone? && Enabled(s, e) && Disciplined(s, e) && Step(s, e).Some?
    ensures AllOnTime(Step(s, e).value)
  {
    var c := s.ctxs[e.i];
    hide PollCb, Deadline;
    PollArms(s, e.i, e.status, e.stat, e.action);
    DeadlineOnGrid(s.now, c.interval, c.startTime);
  }

  /** In every disciplined run. */
  lemma {:induction false} RunOnTime(s: State, es: seq<Event>)
    requires Inv(s) && DisciplinedRun(s, es) && AllOnTime(s)
    ensures Run(s, es).Some? && AllOnTime(Run(s, es).value)
    decreases |es|
  {
    hide Inv, Enabled, Disciplined, Step, AllOnTime;
    if es != [] {
      StepKeepsInv(s, es[0]);
      StepOnTime(s, es[0]);
      RunOnTime(Step(s, es[0]).value, es[1..]);
    }
  }

  /** Every timer that a new poller ever arms is on time. */
  lemma DeadlinesOnTime(es: seq<Event>)
    requires DisciplinedRun(INITIAL, es)
    ensures Run(INITIAL, es).Some? && AllOnTime(Run(INITIAL, es).value)
  {
    InitialInv();
    RunOnTime(INITIAL, es);
  }
}
