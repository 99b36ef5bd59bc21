/**
  fs-poll.c itself: the poller and its contexts as objects that link to each other,
  each entry point shown to do what its function in FsPollSpec says.
*/
module FsPoll {
  import opened Collections
  import opened FsPollSpec

  class Loop {
    var now: nat
  }

  /** `struct poll_ctx`.  The states of its stat request and of its timer are the loop's. */
  class PollCtx {
    ghost const id: nat
    const parentHandle: PollHandle
    const interval: nat
    var busyPolling: int
    var startTime: nat
    var statbuf: Stat
    var previous: PollCtx?
    var inFlight: bool
    var timer: Timer

    constructor (handle: PollHandle, interval: nat, now: nat, ghost n: nat)
      ensures this.View() == Ctx(n, 0, interval, now, ZERO_STATBUF, false, Idle)
      ensures parentHandle == handle && previous == null
    {
      id, parentHandle, this.interval, busyPolling, startTime := n, handle, interval, 0, now;
      statbuf, previous, inFlight, timer := ZERO_STATBUF, null, false, Idle;
    }

    ghost function View(): Ctx
      reads this
    {
      Ctx(id, busyPolling, interval, startTime, statbuf, inFlight, timer)
    }
  }

  ghost function Views(list: seq<PollCtx>): (ctxs: seq<Ctx>)
    ensures |ctxs| == |list|
    reads list
  {
    seq(|list|, k requires 0 <= k < |list| reads list => list[k].View())
  }

  lemma ViewsCons(c: PollCtx, list: seq<PollCtx>)
    ensures Views([c] + list) == [c.View()] + Views(list)
  {
  }

  lemma DistinctCons(c: PollCtx, list: seq<PollCtx>)
    requires Distinct(list) && c !in list
    ensures Distinct([c] + list)
  {
  }

  ghost function Without(list: seq<PollCtx>, i: nat): (rest: seq<PollCtx>)
    requires i < |list|
  {
    list[..i] + list[i + 1..]
  }

  lemma DistinctWithout(list: seq<PollCtx>, i: nat)
    requires Distinct(list) && i < |list|
    ensures Distinct(Without(list, i)) && forall k: nat | k < |Without(list, i)| :: Without(list, i)[k] in list
  {
  }

  lemma ViewsWithout(list: seq<PollCtx>, i: nat)
    requires i < |list|
    ensures Views(Without(list, i)) == Views(list)[..i] + Views(list)[i + 1..]
  {
  }

  lemma WithoutAt(list: seq<PollCtx>, i: nat)
    requires i < |list|
    ensures |Without(list, i)| == |list| - 1
    ensures forall k: nat | k < i :: Without(list, i)[k] == list[k]
    ensures forall k: nat | i <= k < |list| - 1 :: Without(list, i)[k] == list[k + 1]
  {
  }

  /** `list` with at most new contexts in front. */
  ghost predicate Extends(longer: seq<PollCtx>, list: seq<PollCtx>) {
    |list| <= |longer| && longer[|longer| - |list|..] == list
  }

  ghost function At(list: seq<PollCtx>, k: int): PollCtx? {
    if 0 <= k < |list| then list[k] else null
  }

  /** `uv_fs_poll_t`.  The ghost sequence `list` has the contexts in the order of the links. */
  class PollHandle {
    const loop: Loop
    var active: bool
    var closing: bool
    var pollCtx: PollCtx?
    var closePending: nat
    ghost var list: seq<PollCtx>
    ghost var nextId: nat
    ghost var freed: seq<nat>
    ghost var reports: seq<Report>

    /** The links run through the contexts `s` in order. */
    ghost predicate Linked(s: seq<PollCtx>)
      reads s
    {
      forall k: nat | k < |s| :: s[k].previous == At(s, k + 1) && s[k].parentHandle == this
    }

    ghost predicate Chained(s: seq<PollCtx>)
      reads `pollCtx, s
    {
      pollCtx == At(s, 0) && Linked(s)
    }

    ghost predicate Valid()
      reads this, list
    {
      Distinct(list) && Chained(list)
    }

    ghost function View(): State
      reads this, loop, list
    {
      State(active, closing, closePending, loop.now, Views(list), nextId, freed, reports)
    }

    /** `uv_fs_poll_init`. */
    constructor (l: Loop)
      ensures Valid() && loop == l && View() == INITIAL.(now := l.now)
    {
      loop, active, closing, pollCtx, closePending := l, false, false, null, 0;
      list, nextId, freed, reports := [], 0, [], [];
    }

    /** `uv_fs_poll_start`. */
    method StartPolling(interval: nat, failure: int) returns (rc: int)
      requires Valid() && failure <= 0
      modifies this
      ensures Valid() && View() == Start(old(View()), interval, failure)
      ensures rc == if old(active) then 0 else failure
      ensures Extends(list, old(list))
    {
      hide Distinct, Views, Linked;
      if active {
        return 0;
      }
      if failure < 0 {
        return failure;       // no context, or it is freed again
      }
      var ctx := NewCtx(if interval != 0 then interval else 1);
      if pollCtx != null {
        ctx.previous := pollCtx;
      }
      pollCtx := ctx;
      active := true;
      Enlist(ctx);
      rc := 0;
    }

    /** A context with its first stat in flight. */
    method NewCtx(interval: nat) returns (ctx: PollCtx)
      ensures fresh(ctx) && ctx.View() == Ctx(nextId, 0, interval, loop.now, ZERO_STATBUF, true, Idle)
      ensures ctx.parentHandle == this && ctx.previous == null
    {
      ctx := new PollCtx(this, interval, loop.now, nextId);
      ctx.inFlight := true;
    }

    ghost method Enlist(ctx: PollCtx)
      requires Distinct(list) && ctx !in list && pollCtx == ctx
      requires Linked(list)
      requires ctx.previous == At(list, 0) && ctx.parentHandle == this
      modifies `list, `nextId
      ensures Valid() && list == [ctx] + old(list) && nextId == old(nextId) + 1
      ensures Views(list) == [ctx.View()] + old(Views(list))
    {
      hide Distinct;
      DistinctCons(ctx, list);
      ViewsCons(ctx, list);
      list, nextId := [ctx] + list, nextId + 1;
    }

    /** `uv_fs_poll_stop`; false when an assertion fails. */
    method StopPolling() returns (ok: bool)
      requires Valid()
      modifies `active, list
      ensures Valid() && (ok <==> Stop(old(View())).Some?)
      ensures ok ==> View() == Stop(old(View())).value
    {
      if !active {
        return true;
      }
      var ctx := pollCtx;
      if ctx == null || ctx.parentHandle != this {
        return false;
      }
      if ctx.timer.Armed? {
        ctx.timer := Closing;
      }
      active := false;
      return true;
    }

    /** `uv_close` of the poller and `uv__fs_poll_close`. */
    method CloseHandle() returns (ok: bool)
      requires Valid()
      modifies `active, `closing, `closePending, list
      ensures Valid() && (ok <==> Close(old(View())).Some?)
      ensures ok ==> View() == Close(old(View())).value
    {
      hide Distinct;
      if closing {
        return false;
      }
      closing := true;
      label Marked:
      assert View() == old(View()).(closing := true);
      ok := StopPolling();
      if ok && pollCtx == null {
        closePending := closePending + 1;
      }
    }

    /** The user's callback, with what it does to the poller. */
    method CallUser(ctx: PollCtx, status: int, curr: Stat, action: Action) returns (ok: bool)
      requires Valid() && ctx in list
      modifies this, list
      ensures Valid()
      ensures var told := old(View()).(reports := old(reports) + [Report(ctx.id, status, old(ctx.statbuf), curr)]);
        (ok <==> Act(told, action).Some?) && (ok ==> View() == Act(told, action).value)
      ensures Extends(list, old(list))
    {
      hide Distinct, Chained, Start, Stop, Close, Views;
      reports := reports + [Report(ctx.id, status, ctx.statbuf, curr)];
      match action {
        case Nothing => ok := true;
        case StopIt => ok := StopPolling();
        case CloseIt => ok := CloseHandle();
        case Restart(interval) => ok := RestartPolling(interval);
      }
    }

    method RestartPolling(interval: nat) returns (ok: bool)
      requires Valid()
      modifies this, list
      ensures Valid() && (ok <==> Stop(old(View())).Some?) && Extends(list, old(list))
      ensures ok ==> View() == Start(Stop(old(View())).value, interval, 0)
    {
      hide Distinct, Chained, Start, Stop, Views;
      ok := StopPolling();
      if ok {
        var rc := StartPolling(interval, 0);
      }
    }

    /** The end of `poll_cb`. */
    method FinishPoll(ctx: PollCtx, ghost i: nat) returns (ok: bool)
      requires Valid() && i < |list| && list[i] == ctx
      modifies ctx`timer
      ensures Valid() && (ok <==> Out(old(View()), i).Some?)
      ensures ok ==> View() == Out(old(View()), i).value
    {
      hide Distinct, Deadline;
      DistinctAt(list, i);
      if !active || closing {
        if ctx.timer.Closing? || ctx.interval == 0 {
          return false;
        }
        ctx.timer := Closing;
        return true;
      }
      if ctx.interval == 0 {
        return false;
      }
      if ctx.timer.Closing? {
        return false;
      }
      ctx.timer := Armed(Deadline(loop.now, ctx.interval, ctx.startTime));
      return true;
    }

    /** The middle of `poll_cb`. */
    method NoticeStat(ctx: PollCtx, status: int, stat: Stat, action: Action, ghost i: nat) returns (ok: bool)
      requires Valid() && i < |list| && list[i] == ctx
      modifies this, list
      ensures Valid() && (ok <==> Notice(old(View()), i, status, stat, action).Some?)
      ensures ok ==> View() == Notice(old(View()), i, status, stat, action).value
      ensures ok ==> (var j := NoticedAt(old(ctx.View()), i, status, stat, action); j < |list| && list[j] == ctx)
    {
      hide Distinct, Notice, Chained, NoticedAt, View;
      if status != 0 {
        ok := NoticeError(ctx, status, stat, action, i);
      } else {
        ok := NoticeSuccess(ctx, stat, action, i);
      }
    }

    /** The stat has failed; what `stat` holds does not matter. */
    method NoticeError(ctx: PollCtx, status: int, ghost stat: Stat, action: Action, ghost i: nat) returns (ok: bool)
      requires Valid() && i < |list| && list[i] == ctx && status != 0
      modifies this, list
      ensures Valid() && (ok <==> Notice(old(View()), i, status, stat, action).Some?)
      ensures ok ==> View() == Notice(old(View()), i, status, stat, action).value
      ensures ok ==> (var j := NoticedAt(old(ctx.View()), i, status, stat, action); j < |list| && list[j] == ctx)
    {
      hide Distinct, Act, Chained;
      if ctx.busyPolling != status {
        ok := CallUser(ctx, status, ZERO_STATBUF, action);
        if !ok {
          return;
        }
        SetBusy(ctx, status, Shifted(i, action));
      }
      return true;
    }

    /** The stat has succeeded. */
    method NoticeSuccess(ctx: PollCtx, stat: Stat, action: Action, ghost i: nat) returns (ok: bool)
      requires Valid() && i < |list| && list[i] == ctx
      modifies this, list
      ensures Valid() && (ok <==> Notice(old(View()), i, 0, stat, action).Some?)
      ensures ok ==> View() == Notice(old(View()), i, 0, stat, action).value
      ensures ok ==> (var j := NoticedAt(old(ctx.View()), i, 0, stat, action); j < |list| && list[j] == ctx)
    {
      hide Distinct, Chained, StatbufEq, Notice, View;
      if ctx.busyPolling != 0 {
        if ctx.busyPolling < 0 || !StatbufEq(ctx.statbuf, stat) {
          ok := TellSuccess(ctx, stat, action, i);
          return;
        }
      }
      RememberStat(ctx, stat, action, i);
      return true;
    }

    method TellSuccess(ctx: PollCtx, stat: Stat, action: Action, ghost i: nat) returns (ok: bool)
      requires Valid() && i < |list| && list[i] == ctx && Reported(ctx.View(), 0, stat)
      modifies this, list
      ensures Valid() && (ok <==> Notice(old(View()), i, 0, stat, action).Some?)
      ensures ok ==> View() == Notice(old(View()), i, 0, stat, action).value
      ensures ok ==> Shifted(i, action) < |list| && list[Shifted(i, action)] == ctx
    {
      hide Distinct, Act, Chained, Reported, Observed;
      ok := CallUser(ctx, 0, stat, action);
      if ok {
        SetStat(ctx, stat, Shifted(i, action));
      }
    }

    method RememberStat(ctx: PollCtx, stat: Stat, ghost action: Action, ghost i: nat)
      requires Valid() && i < |list| && list[i] == ctx && !Reported(ctx.View(), 0, stat)
      modifies ctx`busyPolling, ctx`statbuf
      ensures Valid() && Notice(old(View()), i, 0, stat, action) == Some(View())
    {
      hide Distinct, Act, Chained, Reported, Observed;
      SetStat(ctx, stat, i);
    }

    method SetBusy(ctx: PollCtx, status: int, ghost j: nat)
      requires Valid() && j < |list| && list[j] == ctx && status != 0
      modifies ctx`busyPolling
      ensures Valid() && View() == old(View()).(ctxs := old(View()).ctxs[j := Observed(old(View()).ctxs[j], status, ZERO_STATBUF)])
    {
      hide Distinct;
      DistinctAt(list, j);
      ctx.busyPolling := status;
    }

    method SetStat(ctx: PollCtx, stat: Stat, ghost j: nat)
      requires Valid() && j < |list| && list[j] == ctx
      modifies ctx`busyPolling, ctx`statbuf
      ensures Valid() && View() == old(View()).(ctxs := old(View()).ctxs[j := Observed(old(View()).ctxs[j], 0, stat)])
    {
      hide Distinct;
      DistinctAt(list, j);
      ctx.statbuf := stat;
      ctx.busyPolling := 1;
    }

    method StatDoneFor(ctx: PollCtx, ghost i: nat)
      requires Valid() && i < |list| && list[i] == ctx
      modifies ctx`inFlight
      ensures Valid() && View() == old(View()).(ctxs := old(View()).ctxs[i := old(View()).ctxs[i].(inFlight := false)])
    {
      hide Distinct;
      DistinctAt(list, i);
      ctx.inFlight := false;
    }

    /** `poll_cb`: the stat of `ctx` has completed. */
    method PollDone(ctx: PollCtx, status: int, stat: Stat, action: Action, ghost i: nat) returns (ok: bool)
      requires Valid() && i < |list| && list[i] == ctx
      modifies this, list
      ensures Valid() && (ok <==> PollCb(old(View()), i, status, stat, action).Some?)
      ensures ok ==> View() == PollCb(old(View()), i, status, stat, action).value
    {
      hide Distinct, Notice, NoticedAt, Out;
      StatDoneFor(ctx, i);
      ghost var j := i;
      if active && !closing {
        j := NoticedAt(ctx.View(), i, status, stat, action);
        ok := NoticeStat(ctx, status, stat, action, i);
        if !ok {
          return;
        }
      }
      ok := FinishPoll(ctx, j);
    }

    /** `timer_cb`: the timer of `ctx` has fired and was stopped. */
    method TimerFired(ctx: PollCtx, ghost i: nat) returns (ok: bool)
      requires Valid() && i < |list| && list[i] == ctx
      modifies ctx
      ensures Valid() && (ok <==> TimerCb(old(View()), i).Some?)
      ensures ok ==> View() == TimerCb(old(View()), i).value
    {
      hide Distinct;
      DistinctAt(list, i);
      if pollCtx != ctx {
        return false;
      }
      ctx.timer := Idle;
      ctx.startTime := loop.now;
      ctx.inFlight := true;
      return true;
    }

    /** The walk to the context before `ctx` in the linked list. */
    method Before(ctx: PollCtx, ghost i: nat) returns (last: PollCtx)
      requires Valid() && 0 < i < |list| && list[i] == ctx
      ensures last == list[i - 1]
    {
      hide Distinct;
      last := pollCtx;
      var it := last.previous;
      ghost var k: nat := 0;
      assert list[0].previous == At(list, 1);
      while it != ctx
        invariant k < i && last == list[k] && it == list[k + 1]
        decreases i - k
      {
        assert list[k + 1].previous == At(list, k + 2);
        last, it := it, it.previous;
        k := k + 1;
      }
      DistinctAt(list, i);
    }

    /** Taking a context out of the linked list. */
    method Unlink(ctx: PollCtx, ghost i: nat)
      requires Valid() && i < |list| && list[i] == ctx
      modifies `pollCtx, `closePending, list`previous
      ensures Views(list) == old(Views(list))
      ensures Chained(Without(list, i))
      ensures closePending == if |list| == 1 && closing then old(closePending) + 1 else old(closePending)
    {
      hide Distinct, Without;
      DistinctAt(list, i);
      assert pollCtx == list[0];
      if ctx == pollCtx {
        UnlinkNewest(ctx);
      } else {
        UnlinkOlder(ctx, i);
      }
    }

    method UnlinkNewest(ctx: PollCtx)
      requires Valid() && list != [] && list[0] == ctx
      modifies `pollCtx, `closePending
      ensures Chained(Without(list, 0))
      ensures closePending == if |list| == 1 && closing then old(closePending) + 1 else old(closePending)
    {
      hide Distinct;
      assert ctx.previous == At(list, 1);
      pollCtx := ctx.previous;
      if pollCtx == null && closing {
        closePending := closePending + 1;
      }
    }

    method SetPrevious(last: PollCtx, previous: PollCtx?)
      modifies last`previous
      ensures last.previous == previous && Views(list) == old(Views(list))
    {
      last.previous := previous;
    }

    method UnlinkOlder(ctx: PollCtx, ghost i: nat)
      requires Valid() && 0 < i < |list| && list[i] == ctx
      modifies list`previous
      ensures Views(list) == old(Views(list))
      ensures Chained(Without(list, i))
    {
      hide Distinct, Views, Without;
      var last := Before(ctx, i);
      DistinctAt(list, i - 1);
      assert ctx.previous == At(list, i + 1) && ctx.parentHandle == this;
      SetPrevious(last, ctx.previous);
      WithoutAt(list, i);
    }

    /** `timer_close_cb`: unlink the context and free it. */
    method TimerGone(ctx: PollCtx, ghost i: nat)
      requires Valid() && i < |list| && list[i] == ctx
      modifies this, list`previous
      ensures Valid() && View() == TimerCloseCb(old(View()), i) && list == Without(old(list), i)
    {
      hide Distinct, Without, Chained;
      Unlink(ctx, i);
      Delist(ctx, i);
      hide Views;
    }

    /** Whatever happens in good order, no assertion fails and the invariant is kept. */
    method OnEvent(e: Event, ctx: PollCtx?) returns (ok: bool)
      requires Valid() && Inv(View()) && Enabled(View(), e) && Disciplined(View(), e) && !e.Tick?
      requires e.StatDone? || e.TimerFires? || e.TimerClosed? ==> e.i < |list| && list[e.i] == ctx
      modifies this, list
      ensures ok && Valid() && Step(old(View()), e) == Some(View()) && Inv(View())
    {
      hide Inv, Chained, Distinct, Disciplined, Start, Stop, Close, PollCb, TimerCb, TimerCloseCb;
      StepKeepsInv(View(), e);
      ok := true;
      match e {
        case CallStart(interval, failure) => var rc := StartPolling(interval, failure);
        case CallStop => ok := StopPolling();
        case CallClose => ok := CloseHandle();
        case StatDone(i, status, stat, action) => ok := PollDone(ctx, status, stat, action, i);
        case TimerFires(i) => ok := TimerFired(ctx, i);
        case TimerClosed(i) => TimerGone(ctx, i);
      }
    }

    ghost method Delist(ctx: PollCtx, i: nat)
      requires i < |list| && list[i] == ctx && Distinct(list) && Chained(Without(list, i))
      modifies `list, `freed
      ensures Valid() && list == Without(old(list), i) && freed == old(freed) + [ctx.id]
      ensures Views(list) == old(Views(list)[..i] + Views(list)[i + 1..])
    {
      hide Distinct, Without, Chained, Views;
      DistinctWithout(list, i);
      ViewsWithout(list, i);
      freed := freed + [ctx.id];
      list := Without(list, i);
    }
  }
}
