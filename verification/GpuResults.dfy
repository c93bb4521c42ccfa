/** What the client of a GPU session is told, in every run. */
module GpuResults {
  import opened GpuProtocol
  import opened GpuSafety
  import opened GpuBlocking

  // ---- no stale result reaches a success callback ----

  /** The result of a request: the request itself, marked with its outcome. */
  predicate ResultOf(c: Request, r: Request) {
    c == r.(success := c.success, seqno := c.seqno) && (r.op != Exec ==> c.seqno == r.seqno)
  }

  /** The worker is inside the given request, or has published its result, or is gone. */
  predicate Pursues(s: State, r: Request) {
    match s.worker
    case Idle => ResultOf(s.completed, r) && !s.pending.Valid()
    case Inside(r', _) => r' == r && s.completed == BLANK
    case Crashed(_) => s.completed == BLANK
  }

  lemma {:induction false} RunWorkerPursues(s: State, r: Request, outs: seq<Outcome>)
    requires Pursues(s, r) && !r.success && r.Valid() && (s.worker.Inside? ==> Fits(r.op, s.worker.at))
    ensures Pursues(RunWorker(s, outs), r)
    ensures RunWorker(s, outs).worker.Inside? ==> Fits(r.op, RunWorker(s, outs).worker.at)
    decreases outs
  {
    if s.worker.Inside? && outs != [] {
      RunWorkerPursues(Step(s, outs[0]), r, outs[1..]);
    }
  }

  lemma SchedulePursues(s: State, req: Request, outs: seq<Outcome>)
    requires Inv(s) && s.worker.Idle? && req.Valid() && Managed(s, req)
    ensures Pursues(Schedule(s, req, outs).0, req.(success := false))
  {
    RunWorkerPursues(Start(s.(pending := req, wired := true)), req.(success := false), outs);
  }

  /** After any run, whatever a success callback receives is the successful result of the
      very request that was submitted: its operation, buffer and tag. The tag is newer than
      that of any result published before. */
  lemma NoStaleResult(es: seq<Event>, e: Event)
    requires !e.Resume? && !e.ClientWrite?
    ensures var s := Run(INIT, es);
            !s.worker.Crashed? && RequestOf(s, e).Some? ==>
              var req := RequestOf(s, e).value;
              var d := Schedule(s.(tags := s.tags + 1), req, e.outs).1;
              && s.completed.tag < req.tag
              && (d.Some? ==> d.value.success && ResultOf(d.value, req) && d.value.tag == req.tag)
  {
    RunKeepsInv(INIT, es);
    var s := Run(INIT, es);
    if !s.worker.Crashed? && RequestOf(s, e).Some? {
      var req := RequestOf(s, e).value;
      var t := s.(tags := s.tags + 1);
      if !t.pending.Valid() && Managed(t, req) {
        SchedulePursues(t, req, e.outs);
      }
    }
  }

  // ---- notifications ----

  /** The event published the result of a WAIT or a MAP. */
  predicate PublishedWaitOrMap(s: State, t: State) {
    t.worker.Idle? && t.completed != s.completed && t.completed.op in {Wait, Map}
  }

  lemma {:induction false} NotificationsOfRun(s: State, outs: seq<Outcome>)
    requires s.worker.Inside? && Fits(s.worker.r.op, s.worker.at)
    ensures var t := RunWorker(s, outs);
            t.notifications == s.notifications
              + (if t.worker.Idle? && s.worker.r.op in {Wait, Map} then 1 else 0)
    decreases outs
  {
    if outs != [] {
      OneCall(s, outs);
      var u := Step(s, outs[0]);
      if u.worker.Inside? {
        NotificationsOfRun(u, outs[1..]);
      }
    }
  }

  /** In every reachable state, an event raises exactly one notification if it publishes the
      result of a WAIT or a MAP, be it a success or not, and none otherwise. */
  lemma OneNotificationPerResult(s: State, e: Event)
    requires Inv(s)
    ensures var t := Apply(s, e).0;
            t.notifications == s.notifications + (if PublishedWaitOrMap(s, t) then 1 else 0)
  {
    if s.worker.Inside? && e.Resume? {
      NotificationsOfResume(s.(tags := s.tags + e.otherTags), e.outs);
    } else if s.worker.Inside? && IsRpc(e) {
      RpcIsRefused(s, e);
    } else if s.worker.Idle? && IsRpc(e) && RequestOf(s, e).Some? {
      NotificationsOfSchedule(s.(tags := s.tags + 1), RequestOf(s, e).value, e.outs);
    }
    hide RunWorker, Schedule;
  }

  lemma NotificationsOfResume(s: State, outs: seq<Outcome>)
    requires Inv(s) && s.worker.Inside?
    ensures var t := RunWorker(s, outs);
            t.notifications == s.notifications + (if PublishedWaitOrMap(s, t) then 1 else 0)
  {
    NotificationsOfRun(s, outs);
    RunWorkerPursues(s, s.worker.r, outs);
    hide RunWorker;
  }

  lemma NotificationsOfSchedule(s: State, req: Request, outs: seq<Outcome>)
    requires Inv(s) && s.worker.Idle? && req.Valid() && !req.success && req.tag > s.completed.tag
    ensures var t := Schedule(s, req, outs).0;
            t.notifications == s.notifications + (if PublishedWaitOrMap(s, t) then 1 else 0)
  {
    if Managed(s, req) {
      var u := Start(s.(pending := req, wired := true));
      SchedulePursues(s, req, outs);
      if u.worker.Inside? {
        NotificationsOfRun(u, outs);
      }
    }
  }

  // ---- submissions ----

  /** At most one submission was added, and it consists of handles that were open. */
  predicate SubmitsOpenHandles(s: State, t: State) {
    && s.drm.submits <= t.drm.submits
    && |t.drm.submits| <= |s.drm.submits| + 1
    && (|t.drm.submits| > |s.drm.submits| ==>
          forall h <- t.drm.submits[|s.drm.submits|] :: h in s.drm.open)
  }

  /** In every run, whatever is submitted to DRM consists of handles that are open. */
  lemma SubmittedHandlesAreOpen(es: seq<Event>, e: Event)
    ensures SubmitsOpenHandles(Run(INIT, es), Run(INIT, es + [e]))
  {
    RunKeepsInv(INIT, es);
    var s := Run(INIT, es);
    RunAppend(INIT, es, [e]);
    assert Run(s, [e]) == Apply(s, e).0;
    SubmitsOfApply(s, e);
  }

  lemma {:induction false} RunAppend(s: State, es: seq<Event>, fs: seq<Event>)
    ensures Run(s, es + fs) == Run(Run(s, es), fs)
    decreases es
  {
    if es == [] {
      assert es + fs == fs;
    } else {
      assert (es + fs)[1..] == es[1..] + fs;
      RunAppend(Apply(s, es[0]).0, es[1..], fs);
    }
  }

  lemma {:induction false} RunWorkerSubmitsNothing(s: State, outs: seq<Outcome>)
    ensures RunWorker(s, outs).drm.submits == s.drm.submits
    decreases outs
  {
    if s.worker.Inside? && outs != [] {
      RunWorkerSubmitsNothing(Step(s, outs[0]), outs[1..]);
    }
  }

  lemma SubmitsOfStart(s: State)
    requires Inv(s.(pending := BLANK)) && s.worker.Idle? && s.wired && s.pending.Valid()
    requires Managed(s, s.pending)
    ensures SubmitsOpenHandles(s, Start(s))
  {
    if s.pending.op == Exec {
      var slots := s.buffers[s.pending.id].slots;
      var n := FirstUnknown(s.buffers, slots);
      var bos := Translated(s.buffers, slots, n);
      if n == |slots| {
        forall h <- bos
          ensures h in s.drm.open
        {
          var k :| 0 <= k < |bos| && bos[k] == h;
          assert slots[k] in s.buffers && s.buffers[slots[k]].handle == h;
        }
      }
    }
  }

  lemma SubmitsOfSchedule(s: State, req: Request, outs: seq<Outcome>)
    requires Inv(s) && !s.worker.Crashed? && req.Valid()
    ensures SubmitsOpenHandles(s, Schedule(s, req, outs).0)
  {
    if !s.pending.Valid() && Managed(s, req) {
      var t := s.(pending := req, wired := true);
      SubmitsOfStart(t);
      hide Start;
      RunWorkerSubmitsNothing(Start(t), outs);
    }
  }

  lemma SubmitsOfApply(s: State, e: Event)
    requires Inv(s)
    ensures SubmitsOpenHandles(s, Apply(s, e).0)
  {
    hide RunWorker, Start;
    if s.worker.Crashed? {
    } else if e.Resume? {
      RunWorkerSubmitsNothing(s.(tags := s.tags + e.otherTags), e.outs);
    } else if IsRpc(e) && RequestOf(s, e).Some? {
      SubmitsOfSchedule(s.(tags := s.tags + 1), RequestOf(s, e).value, e.outs);
      hide Schedule;
    }
  }
}
