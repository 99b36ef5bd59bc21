/**
  The file poller of libuv's fs-poll.c as a state machine.

  A poller owns a list of contexts, newest first; each context has one stat
  request and one timer.  Every entry point of the file is a function on the
  state that gives `None` where an assertion of the source fails or it aborts.
*/
module FsPollSpec {
  import opened Bits
  import opened Collections

  datatype Timespec = Timespec(sec: int, nsec: int)

  /** `uv_stat_t`. */
  datatype Stat = Stat(
    dev: nat, mode: nat, nlink: nat, uid: nat, gid: nat, rdev: nat, ino: nat, size: nat, blksize: nat, blocks: nat,
    flags: nat, gen: nat, atim: Timespec, mtim: Timespec, ctim: Timespec, birthtim: Timespec)

  const ZERO_STATBUF := Stat(0, 0, 0, 0, 0, 0, 0, 0, 0, 0, 0, 0,
    Timespec(0, 0), Timespec(0, 0), Timespec(0, 0), Timespec(0, 0))

  /** `statbuf_eq`. */
  predicate StatbufEq(a: Stat, b: Stat) {
    && a.ctim.nsec == b.ctim.nsec && a.mtim.nsec == b.mtim.nsec && a.birthtim.nsec == b.birthtim.nsec
    && a.ctim.sec == b.ctim.sec && a.mtim.sec == b.mtim.sec && a.birthtim.sec == b.birthtim.sec
    && a.size == b.size && a.mode == b.mode && a.uid == b.uid && a.gid == b.gid && a.ino == b.ino && a.dev == b.dev
    && a.flags == b.flags && a.gen == b.gen
  }

  datatype Timer = Idle | Armed(deadline: nat) | Closing

  /** `struct poll_ctx`, with the states of its request and its timer. */
  datatype Ctx = Ctx(id: nat, busyPolling: int, interval: nat, startTime: nat, statbuf: Stat, inFlight: bool, timer: Timer)

  /** A call of the user's callback. */
  datatype Report = Report(id: nat, status: int, prev: Stat, curr: Stat)

  /** `closePending` counts the calls of `uv__make_close_pending`; `freed` lists the contexts that
      were freed. */
  datatype State = State(
    active: bool, closing: bool, closePending: nat, now: nat, ctxs: seq<Ctx>,
    nextId: nat, freed: seq<nat>, reports: seq<Report>)

  const INITIAL := State(false, false, 0, 0, [], 0, [], [])

  // ----- the entry points -----

  /** `uv_fs_poll_start`.  `failure` is the error of the allocation, of the timer or of the first
      stat, or 0 when they succeed. */
  function Start(s: State, interval: nat, failure: int): State {
    if s.active || failure < 0 then s
    else
      var c := Ctx(s.nextId, 0, if interval != 0 then interval else 1, s.now, ZERO_STATBUF, true, Idle);
      s.(ctxs := [c] + s.ctxs, active := true, nextId := s.nextId + 1)
  }

  /** `uv_fs_poll_stop`. */
  function Stop(s: State): (r: Option<State>)
    ensures r.Some? ==> |r.value.ctxs| == |s.ctxs| && !r.value.active
  {
    if !s.active then Some(s)
    else if s.ctxs == [] then None
    else
      var c := s.ctxs[0];
      Some(s.(active := false, ctxs := if c.timer.Armed? then s.ctxs[0 := c.(timer := Closing)] else s.ctxs))
  }

  /** `uv_close` of the poller, with `uv__fs_poll_close`. */
  function Close(s: State): (r: Option<State>)
    ensures r.Some? ==> |r.value.ctxs| == |s.ctxs|
  {
    if s.closing then None
    else
      match Stop(s.(closing := true))
      case None => None
      case Some(t) => Some(if t.ctxs == [] then t.(closePending := t.closePending + 1) else t)
  }

  /** What the user does in the callback; a restart succeeds. */
  datatype Action = Nothing | StopIt | CloseIt | Restart(interval: nat)

  function Act(s: State, action: Action): (r: Option<State>)
    ensures r.Some? ==> |r.value.ctxs| == Shifted(|s.ctxs|, action)
  {
    match action
    case Nothing => Some(s)
    case StopIt => Stop(s)
    case CloseIt => Close(s)
    case Restart(interval) =>
      match Stop(s)
      case None => None
      case Some(t) => Some(Start(t, interval, 0))
  }

  /** The context at position `i` moves when the callback starts a new one. */
  function Shifted(i: nat, action: Action): nat {
    if action.Restart? then i + 1 else i
  }

  /** Whether a completed stat is reported. */
  predicate Reported(c: Ctx, status: int, stat: Stat) {
    if status != 0 then c.busyPolling != status
    else c.busyPolling != 0 && (c.busyPolling < 0 || !StatbufEq(c.statbuf, stat))
  }

  /** What a completed stat leaves in its context. */
  function Observed(c: Ctx, status: int, stat: Stat): Ctx {
    if status != 0 then c.(busyPolling := status) else c.(statbuf := stat, busyPolling := 1)
  }

  function TheReport(c: Ctx, status: int, stat: Stat): Report {
    Report(c.id, status, c.statbuf, if status != 0 then ZERO_STATBUF else stat)
  }

  /** The next time on the grid of the start time. */
  function NextOnGrid(now: nat, interval: nat, startTime: nat): nat
    requires interval > 0
  {
    now + (interval - Word64(now - startTime) % interval)
  }

  /** When the timer is to fire again: `uv_timer_start` clamps at the largest `uint64_t`. */
  function Deadline(now: nat, interval: nat, startTime: nat): (d: nat)
    requires interval > 0
    ensures d < U64
  {
    var next := NextOnGrid(now, interval, startTime);
    if next >= U64 then U64 - 1 else next
  }

  /** The end of `poll_cb`: close the timer or start it again. */
  function Out(s: State, i: nat): Option<State>
    requires i < |s.ctxs|
  {
    var c := s.ctxs[i];
    if c.timer.Closing? || c.interval == 0 then None
    else if !s.active || s.closing then Some(s.(ctxs := s.ctxs[i := c.(timer := Closing)]))
    else Some(s.(ctxs := s.ctxs[i := c.(timer := Armed(Deadline(s.now, c.interval, c.startTime)))]))
  }

  /** The middle of `poll_cb`: tell the user, and remember the outcome. */
  function Notice(s: State, i: nat, status: int, stat: Stat, action: Action): (r: Option<State>)
    requires i < |s.ctxs|
    ensures r.Some? ==> NoticedAt(s.ctxs[i], i, status, stat, action) < |r.value.ctxs|
  {
    var c := s.ctxs[i];
    if !Reported(c, status, stat) then Some(s.(ctxs := s.ctxs[i := Observed(c, status, stat)]))
    else
      match Act(s.(reports := s.reports + [TheReport(c, status, stat)]), action)
      case None => None
      case Some(u) =>
        var j := Shifted(i, action);
        Some(u.(ctxs := u.ctxs[j := Observed(u.ctxs[j], status, stat)]))
  }

  /** Where the context is afterwards. */
  function NoticedAt(c: Ctx, i: nat, status: int, stat: Stat, action: Action): nat {
    if Reported(c, status, stat) then Shifted(i, action) else i
  }

  /** `poll_cb`: the stat of the context at position `i` has completed. */
  function PollCb(s: State, i: nat, status: int, stat: Stat, action: Action): Option<State>
    requires i < |s.ctxs|
  {
    var c := s.ctxs[i].(inFlight := false);
    var t := s.(ctxs := s.ctxs[i := c]);
    if !s.active || s.closing then Out(t, i)
    else
      match Notice(t, i, status, stat, action)
      case None => None
      case Some(u) => Out(u, NoticedAt(c, i, status, stat, action))
  }

  /** `timer_cb`: the timer of the context at position `i` has fired; the loop has stopped it. */
  function TimerCb(s: State, i: nat): Option<State>
    requires i < |s.ctxs|
  {
    if i != 0 then None       // handle->poll_ctx == ctx
    else Some(s.(ctxs := s.ctxs[i := s.ctxs[i].(timer := Idle, startTime := s.now, inFlight := true)]))
  }

  /** `timer_close_cb`: the timer of the context at position `i` is closed. */
  function TimerCloseCb(s: State, i: nat): State
    requires i < |s.ctxs|
  {
    var rest := s.ctxs[..i] + s.ctxs[i + 1..];
    s.(ctxs := rest, freed := s.freed + [s.ctxs[i].id],
       closePending := if rest == [] && s.closing then s.closePending + 1 else s.closePending)
  }

  // ----- runs -----

  datatype Event =
    | Tick(elapsed: nat)
    | CallStart(interval: nat, failure: int)
    | CallStop
    | CallClose
    | StatDone(i: nat, status: int, stat: Stat, action: Action)
    | TimerFires(i: nat)
    | TimerClosed(i: nat)

  function Step(s: State, e: Event): Option<State>
    requires Enabled(s, e)
  {
    match e
    case Tick(elapsed) => Some(s.(now := s.now + elapsed))
    case CallStart(interval, failure) => Some(Start(s, interval, failure))
    case CallStop => Stop(s)
    case CallClose => Close(s)
    case StatDone(i, status, stat, action) => PollCb(s, i, status, stat, action)
    case TimerFires(i) => TimerCb(s, i)
    case TimerClosed(i) => Some(TimerCloseCb(s, i))
  }

  /** What the loop and the user can do: only what is in progress completes. */
  predicate Enabled(s: State, e: Event) {
    match e
    case Tick(elapsed) => s.now + elapsed < U64
    case CallStart(_, failure) => failure <= 0
    case CallStop => true
    case CallClose => true
    case StatDone(i, status, _, _) => i < |s.ctxs| && s.ctxs[i].inFlight && status <= 0
    case TimerFires(i) => i < |s.ctxs| && s.ctxs[i].timer.Armed? && s.ctxs[i].timer.deadline <= s.now
    case TimerClosed(i) => i < |s.ctxs| && s.ctxs[i].timer.Closing?
  }

  /** A stat completes in good order when the poller is not active, or when no newer context
      exists and the callback does not start one, or when the callback stops or closes the
      poller. */
  predicate GoodCompletion(s: State, i: nat, status: int, stat: Stat, action: Action)
    requires i < |s.ctxs|
  {
    || !s.active
    || (i == 0 && (Reported(s.ctxs[i], status, stat) ==> !action.Restart?))
    || (Reported(s.ctxs[i], status, stat) && (action.StopIt? || action.CloseIt?))
  }

  /** The discipline under which the poller works: nothing is started or closed after closing, and
      stats complete in good order. */
  predicate Disciplined(s: State, e: Event) {
    match e
    case CallStart(_, _) => !s.closing
    case CallClose => !s.closing
    case StatDone(i, status, stat, action) => i < |s.ctxs| && GoodCompletion(s, i, status, stat, action)
    case Tick(_) => true
    case CallStop => true
    case TimerFires(_) => true
    case TimerClosed(_) => true
  }

  /** Exactly one of stat in flight, timer armed and timer closing. */
  predicate OneThing(c: Ctx) {
    c.interval > 0 && (c.inFlight <==> c.timer.Idle?)
  }

  /** Every context created is in the list or was freed, and that once. */
  ghost predicate Accounted(s: State) {
    && (forall k: nat | k < |s.ctxs| :: s.ctxs[k].id < s.nextId)
    && (forall k: nat | k < |s.freed| :: s.freed[k] < s.nextId)
    && (forall j: nat, k: nat | j < k < |s.ctxs| :: s.ctxs[j].id != s.ctxs[k].id)
    && (forall j: nat, k: nat | j < k < |s.freed| :: s.freed[j] != s.freed[k])
    && (forall j: nat, k: nat | j < |s.ctxs| && k < |s.freed| :: s.ctxs[j].id != s.freed[k])
    && |s.ctxs| + |s.freed| == s.nextId
  }

  /** Only the newest context of an active poller has its timer armed, and that of an active
      poller is not closing. */
  ghost predicate Inv(s: State) {
    && (forall k: nat | k < |s.ctxs| :: OneThing(s.ctxs[k]))
    && (forall k: nat | k < |s.ctxs| && s.ctxs[k].timer.Armed? :: k == 0 && s.active)
    && (s.active ==> s.ctxs != [] && !s.ctxs[0].timer.Closing?)
    && (s.closing ==> !s.active)
    && s.now < U64 && (forall k: nat | k < |s.ctxs| :: s.ctxs[k].startTime <= s.now)
    && s.closePending == (if s.closing && s.ctxs == [] then 1 else 0)
    && Accounted(s)
  }

  /** Under the discipline no assertion fails and the invariant is kept. */
  lemma StepKeepsInv(s: State, e: Event)
    requires Inv(s) && Enabled(s, e) && Disciplined(s, e)
    ensures Step(s, e).Some? && Inv(Step(s, e).value)
  {
    match e
    case Tick(_) =>
    case CallStart(interval, failure) => StartKeepsInv(s, interval, failure);
    case CallStop => StopKeepsInv(s);
    case CallClose => CloseKeepsInv(s);
    case StatDone(i, status, stat, action) => PollKeepsInv(s, i, status, stat, action);
    case TimerFires(i) =>
    case TimerClosed(i) => ClosedKeepsInv(s, i);
  }

  lemma StartKeepsInv(s: State, interval: nat, failure: int)
    requires Inv(s) && !s.closing
    ensures Inv(Start(s, interval, failure))
  {
  }

  lemma StopKeepsInv(s: State)
    requires Inv(s)
    ensures Stop(s).Some? && Inv(Stop(s).value)
  {
  }

  lemma CloseKeepsInv(s: State)
    requires Inv(s) && !s.closing
    ensures Close(s).Some? && Inv(Close(s).value)
  {
  }

  /** The invariant inside `poll_cb`: the context at position `i` has nothing in progress. */
  ghost predicate InvInside(s: State, i: nat) {
    && i < |s.ctxs| && s.ctxs[i].interval > 0 && !s.ctxs[i].inFlight && s.ctxs[i].timer.Idle?
    && (forall k: nat | k < |s.ctxs| && k != i :: OneThing(s.ctxs[k]))
    && (forall k: nat | k < |s.ctxs| && s.ctxs[k].timer.Armed? :: k == 0 && s.active)
    && (s.active ==> s.ctxs != [] && !s.ctxs[0].timer.Closing?)
    && (s.closing ==> !s.active)
    && s.now < U64 && (forall k: nat | k < |s.ctxs| :: s.ctxs[k].startTime <= s.now)
    && s.closePending == 0
    && Accounted(s)
  }

  /** Which of the list's contexts they are does not matter to the account. */
  ghost predicate SameIds(s: State, t: State) {
    && |s.ctxs| == |t.ctxs| && s.nextId == t.nextId && s.freed == t.freed
    && forall k: nat | k < |s.ctxs| :: s.ctxs[k].id == t.ctxs[k].id
  }

  lemma SameAccount(s: State, t: State)
    requires Accounted(s) && SameIds(s, t)
    ensures Accounted(t)
  {
  }

  lemma ActKeepsInside(s: State, i: nat, action: Action)
    requires InvInside(s, i) && !action.Restart? && s.active
    ensures Act(s, action).Some? && InvInside(Act(s, action).value, i)
    ensures !action.Nothing? ==> !Act(s, action).value.active
  {
    hide Accounted;
    SameAccount(s, Act(s, action).value);
  }

  lemma OutSettles(s: State, i: nat)
    requires InvInside(s, i) && (i > 0 ==> !s.active)
    ensures Out(s, i).Some? && Inv(Out(s, i).value)
  {
    hide Accounted, Deadline;
    SameAccount(s, Out(s, i).value);
  }

  lemma ObservedInside(s: State, i: nat, status: int, stat: Stat)
    requires InvInside(s, i)
    ensures InvInside(s.(ctxs := s.ctxs[i := Observed(s.ctxs[i], status, stat)]), i)
  {
    hide Accounted;
    SameAccount(s, s.(ctxs := s.ctxs[i := Observed(s.ctxs[i], status, stat)]));
  }

  /** The state in which a stat that completes in good order reaches the end of `poll_cb`. */
  lemma PollReachesOut(s: State, i: nat, status: int, stat: Stat, action: Action) returns (v: State)
    requires Inv(s) && i < |s.ctxs| && s.ctxs[i].inFlight && status <= 0
    requires GoodCompletion(s, i, status, stat, action)
    ensures InvInside(v, i) && (i > 0 ==> !v.active) && PollCb(s, i, status, stat, action) == Out(v, i)
    ensures v.now == s.now && SameClock(v.ctxs[i], s.ctxs[i])
  {
    var t := s.(ctxs := s.ctxs[i := s.ctxs[i].(inFlight := false)]);
    PollInside(s, i);
    if !s.active || s.closing {
      v := t;
    } else if !Reported(s.ctxs[i], status, stat) {
      hide Inv, InvInside, Out;
      ObservedInside(t, i, status, stat);
      v := t.(ctxs := t.ctxs[i := Observed(t.ctxs[i], status, stat)]);
    } else {
      hide Inv, InvInside, Out, Act;
      v := ReportReachesOut(t, i, status, stat, action);
    }
  }

  predicate SameClock(a: Ctx, b: Ctx) {
    a.interval == b.interval && a.startTime == b.startTime
  }

  /** The same from the report on. */
  lemma ReportReachesOut(t: State, i: nat, status: int, stat: Stat, action: Action) returns (v: State)
    requires InvInside(t, i) && t.active && status <= 0 && !action.Restart? && (i > 0 ==> !action.Nothing?)
    ensures var r := Act(t.(reports := t.reports + [TheReport(t.ctxs[i], status, stat)]), action);
      r.Some? && i < |r.value.ctxs| && v == r.value.(ctxs := r.value.ctxs[i := Observed(r.value.ctxs[i], status, stat)])
    ensures InvInside(v, i) && (i > 0 ==> !v.active) && v.now == t.now && SameClock(v.ctxs[i], t.ctxs[i])
  {
    assert i < |t.ctxs|;
    hide InvInside;
    var report := TheReport(t.ctxs[i], status, stat);
    var r := t.(reports := t.reports + [report]);
    ReportInside(t, i, report);
    ActKeepsInside(r, i, action);
    ActKeepsClock(r, i, action);
    hide Act;
    var u := Act(r, action).value;
    ObservedInside(u, i, status, stat);
    v := u.(ctxs := u.ctxs[i := Observed(u.ctxs[i], status, stat)]);
  }

  lemma ActKeepsClock(s: State, i: nat, action: Action)
    requires i < |s.ctxs| && !action.Restart? && Act(s, action).Some?
    ensures Act(s, action).value.now == s.now && SameClock(Act(s, action).value.ctxs[i], s.ctxs[i])
  {
  }

  /** A stat that completes in good order. */
  lemma PollKeepsInv(s: State, i: nat, status: int, stat: Stat, action: Action)
    requires Inv(s) && i < |s.ctxs| && s.ctxs[i].inFlight && status <= 0
    requires GoodCompletion(s, i, status, stat, action)
    ensures PollCb(s, i, status, stat, action).Some? && Inv(PollCb(s, i, status, stat, action).value)
  {
    hide Inv, InvInside, Out, PollCb, GoodCompletion;
    var v := PollReachesOut(s, i, status, stat, action);
    OutSettles(v, i);
  }

  lemma PollInside(s: State, i: nat)
    requires Inv(s) && i < |s.ctxs| && s.ctxs[i].inFlight
    ensures InvInside(s.(ctxs := s.ctxs[i := s.ctxs[i].(inFlight := false)]), i)
  {
    hide Accounted;
    SameAccount(s, s.(ctxs := s.ctxs[i := s.ctxs[i].(inFlight := false)]));
  }

  /** A stat that completes otherwise leaves a timer armed in a context that is not the newest. */
  lemma BadCompletionArms(s: State, i: nat, status: int, stat: Stat, action: Action)
    requires Inv(s) && i < |s.ctxs| && s.ctxs[i].inFlight && status <= 0
    requires !GoodCompletion(s, i, status, stat, action)
    ensures var r := PollCb(s, i, status, stat, action);
      r.Some? && var j := if Reported(s.ctxs[i], status, stat) then Shifted(i, action) else i;
      0 < j < |r.value.ctxs| && r.value.ctxs[j].timer.Armed?
      && r.value.ctxs[j].timer.deadline < U64 && r.value.now == s.now < U64
  {
    hide Accounted, Deadline;
  }

  /** The exact condition: a completed stat keeps the invariant if and only if it completes in good
      order. */
  lemma CompletionExact(s: State, i: nat, status: int, stat: Stat, action: Action)
    requires Inv(s) && Enabled(s, StatDone(i, status, stat, action))
    ensures var r := PollCb(s, i, status, stat, action);
      (r.Some? && Inv(r.value)) <==> GoodCompletion(s, i, status, stat, action)
  {
    if GoodCompletion(s, i, status, stat, action) {
      PollKeepsInv(s, i, status, stat, action);
    } else {
      BadCompletionArms(s, i, status, stat, action);
    }
  }

  lemma ReportInside(s: State, i: nat, report: Report)
    requires InvInside(s, i)
    ensures InvInside(s.(reports := s.reports + [report]), i)
  {
    hide Accounted;
    SameAccount(s, s.(reports := s.reports + [report]));
  }

  lemma ClosedKeepsInv(s: State, i: nat)
    requires Inv(s) && i < |s.ctxs| && s.ctxs[i].timer.Closing?
    ensures Inv(TimerCloseCb(s, i))
  {
    assert Accounted(TimerCloseCb(s, i)) by { ClosedAccount(s, i); }
    hide Accounted;
  }

  lemma ClosedAccount(s: State, i: nat)
    requires Accounted(s) && i < |s.ctxs|
    ensures Accounted(TimerCloseCb(s, i))
  {
  }
}
