/** The GPU session and its worker task, with the fields that they share. Every method is
    verified against the function of the same purpose in GpuProtocol; the RPCs also keep the
    session's invariant and the promises of GpuReplies. */
module GpuSession {
  import opened GpuProtocol
  import opened GpuSafety
  import opened GpuBlocking
  import opened GpuReplies
  import opened GpuResults
  import opened GpuMapping

  class Session {
    var buffers: Buffers
    var pending: Request
    var completed: Request
    var wired: bool
    var pendingMap: bool
    var tags: nat
    var worker: Worker
    var drm: Drm
    var flushed: seq<Id>
    var notifications: nat

    constructor ()
      ensures Abs() == INIT
      ensures buffers == map[] && !pending.Valid() && !completed.Valid() && !wired && !pendingMap
      ensures worker.Idle? && drm == Drm({}, [], [])
    {
      buffers, pending, completed := map[], BLANK, BLANK;
      wired, pendingMap, tags, worker := false, false, 0, Idle;
      drm, flushed, notifications := Drm({}, [], []), [], 0;
    }

    function Abs(): State
      reads this
    {
      State(buffers, pending, completed, wired, pendingMap, tags, worker, drm, flushed, notifications)
    }

    // ---- worker side ----

    /** The end of 'with_pending_request', and the notification after it. */
    method Publish(r: Request, notify: bool)
      modifies this
      ensures Abs() == Finish(old(Abs()), r, notify)
    {
      completed := r;
      pending := BLANK;
      if notify {
        notifications := notifications + 1;
      }
      worker := Idle;
    }

    /** EXEC's loop over the slots of the submit buffer, which it overwrites in place. */
    method TranslateSlots(id: Id) returns (ok: bool)
      requires id in buffers
      modifies `buffers, `flushed
      ensures var b := old(buffers);
              var slots := b[id].slots;
              var n := FirstUnknown(b, slots);
              && (ok <==> n == |slots|)
              && buffers == b[id := b[id].(slots := Translated(b, slots, n))]
              && flushed == old(flushed) + slots[..n]
    {
      ghost var b, slots := buffers, buffers[id].slots;
      ghost var n := FirstUnknown(b, slots);
      var count := |buffers[id].slots|;
      assert Translated(b, slots, 0) == slots && b[id].(slots := slots) == b[id];
      assert b[id := b[id]] == b;
      for i := 0 to count
        invariant i <= n
        invariant buffers == b[id := b[id].(slots := Translated(b, slots, i))]
        invariant flushed == old(flushed) + slots[..i]
      {
        var bo := buffers[id].slots[i];
        if bo !in buffers {
          return false;
        }
        flushed := flushed + [bo];
        var buffer := buffers[id];
        buffers := buffers[id := buffer.(slots := buffer.slots[i := buffers[bo].handle])];
        assert slots[..i + 1] == slots[..i] + [slots[i]];
        assert Translated(b, slots, i + 1) == Translated(b, slots, i)[i := b[bo].handle];
      }
      return true;
    }

    method DispatchExec(r: Request)
      modifies this
      ensures Abs() == StartExec(old(Abs()), r)
    {
      if r.id !in buffers {
        Publish(r, false);
        return;
      }
      var ok := TranslateSlots(r.id);
      if !ok {
        Publish(r, false);
        return;
      }
      drm := drm.(submits := drm.submits + [buffers[r.id].slots]);
      worker := Inside(r, Submit(buffers[r.id].slots));
    }

    /** An idle worker picks up the pending request. */
    method WithPendingRequest()
      modifies this
      ensures Abs() == Start(old(Abs()))
    {
      if !wired || !pending.Valid() {
        return;
      }
      completed := BLANK;
      var r := pending.(success := false);
      match r.op
      case Alloc =>
        worker := Inside(r, GemNew);
      case Free =>
        if r.id in buffers {
          worker := Inside(r, GemClose(buffers[r.id].handle));
        } else {
          Publish(r, false);
        }
      case Exec =>
        DispatchExec(r);
      case Wait =>
        worker := Inside(r, WaitFence);
      case Map =>
        if r.id in buffers {
          worker := Inside(r, CpuPrep(buffers[r.id].handle));
        } else {
          Publish(r, false);
        }
      case Unmap =>
        if r.id in buffers {
          worker := Inside(r, CpuFini(buffers[r.id].handle));
        } else {
          Publish(r, false);
        }
    }

    method CloseHandle(h: Handle)
      modifies `drm
      ensures drm == Close(old(drm), h)
    {
      drm := drm.(open := drm.open - {h}, closes := drm.closes + [h]);
    }

    /** The DRM call that the worker is blocked in returns. */
    method Continue(o: Outcome)
      modifies this
      ensures Abs() == Step(old(Abs()), o)
    {
      if !worker.Inside? {
        return;
      }
      var r := worker.r;
      match worker.at
      case GemNew =>
        if o.ok && o.value !in drm.open {
          drm := drm.(open := drm.open + {o.value});
          worker := Inside(r, GemInfo(o.value));
        } else {
          Publish(r, false);
        }
      case GemInfo(h) =>
        if !o.ok {
          worker := Inside(r, GemUndo(h));
        } else if r.id in buffers {
          worker := Crashed(IdTaken);
        } else if o.cap.None? {
          worker := Crashed(NoDataspace);
        } else {
          buffers := buffers[r.id := Buffer(h, o.cap.value, [])];
          Publish(r.(success := true), false);
        }
      case GemUndo(h) =>
        CloseHandle(h);
        Publish(r, false);
      case GemClose(h) =>
        CloseHandle(h);
        buffers := buffers - {r.id};
        Publish(r.(success := true), false);
      case Submit(bos) =>
        if o.ok {
          r := r.(seqno := o.value, success := true);
        }
        Publish(r, false);
      case WaitFence =>
        Publish(r.(success := o.ok), true);
      case CpuPrep(h) =>
        Publish(r.(success := o.ok), true);
      case CpuFini(h) =>
        Publish(r.(success := true), false);
    }

    /** 'scheduler.execute()', also called for interrupts. */
    method ExecuteScheduler(outs: seq<Outcome>)
      modifies this
      ensures Abs() == RunWorker(old(Abs()), outs)
    {
      var i := 0;
      while worker.Inside? && i < |outs|
        invariant i <= |outs|
        invariant RunWorker(Abs(), outs[i..]) == RunWorker(old(Abs()), outs)
      {
        assert outs[i..][0] == outs[i] && outs[i..][1..] == outs[i + 1..];
        Continue(outs[i]);
        i := i + 1;
      }
    }

    // ---- session side ----

    /** '_schedule_request': a success callback gets the successful result of this request,
        with its tag; a refused request changes nothing. */
    method ScheduleRequest(req: Request, outs: seq<Outcome>) returns (delivered: Option<Request>)
      requires Inv(Abs()) && !worker.Crashed? && req.Valid() && req.tag <= tags
      modifies this
      ensures (Abs(), delivered) == Schedule(old(Abs()), req, outs)
      ensures Inv(Abs())
      ensures delivered.Some? ==> delivered.value.success && ResultOf(delivered.value, req)
      ensures old(worker).Inside? || !Managed(old(Abs()), req) ==>
                delivered.None? && Abs() == old(Abs())
    {
      ScheduleKeepsInv(Abs(), req, outs);
      if worker.Idle? && Managed(Abs(), req) {
        SchedulePursues(Abs(), req, outs);
      }
      if pending.Valid() || (req.op in {Free, Map, Unmap, Exec} && req.id !in buffers) {
        return None;
      }
      pending := req;
      wired := true;
      WithPendingRequest();
      ExecuteScheduler(outs);
      return if completed.success then Some(completed) else None;
    }

    method CreateRequest(op: Op, id: Id) returns (r: Request)
      modifies `tags
      ensures tags == old(tags) + 1 && r == Create(old(Abs()), op, id)
    {
      tags := tags + 1;
      r := Request(op, id, 0, 0, false, tags);
    }

    method Execute(id: Id, outs: seq<Outcome>) returns (reply: Reply)
      requires Inv(Abs()) && !worker.Crashed?
      modifies this
      ensures (Abs(), reply) == Apply(old(Abs()), Event.Execute(id, outs))
      ensures Inv(Abs()) && ExecutePromise(old(Abs()), id, outs, Abs(), reply)
    {
      hide ExecutePromise;
      ExecuteTranslates(Abs(), id, outs);
      ApplyKeepsInv(Abs(), Event.Execute(id, outs));
      var r := CreateRequest(Exec, id);
      var d := ScheduleRequest(r, outs);
      return if d.Some? then SequenceNumber(d.value.seqno) else InvalidState;
    }

    method Complete(seqno: nat, outs: seq<Outcome>) returns (reply: Reply)
      requires Inv(Abs()) && !worker.Crashed?
      modifies this
      ensures (Abs(), reply) == Apply(old(Abs()), Event.Complete(seqno, outs))
      ensures Inv(Abs()) && CompletePromise(old(Abs()), seqno, outs, Abs(), reply)
    {
      hide CompletePromise;
      CompleteKeepsPromise(Abs(), seqno, outs);
      ApplyKeepsInv(Abs(), Event.Complete(seqno, outs));
      var r := CreateRequest(Wait, 0);
      var d := ScheduleRequest(r.(seqno := seqno), outs);
      return Completed(d.Some? && d.value.success);
    }

    method AllocVram(id: Id, size: nat, outs: seq<Outcome>) returns (reply: Reply)
      requires Inv(Abs()) && !worker.Crashed?
      modifies this
      ensures (Abs(), reply) == Apply(old(Abs()), Event.AllocVram(id, size, outs))
      ensures Inv(Abs()) && AllocPromise(old(Abs()), id, size, outs, Abs(), reply)
    {
      hide AllocPromise;
      AllocKeepsPromise(Abs(), id, size, outs);
      ApplyKeepsInv(Abs(), Event.AllocVram(id, size, outs));
      if size > MAX_SIZE {
        return Capability(None);
      }
      var r := CreateRequest(Alloc, id);
      var d := ScheduleRequest(r.(size := size), outs);
      if d.None? {
        return Capability(None);
      }
      return Capability(Lookup(buffers, d.value.id));
    }

    method FreeVram(id: Id, outs: seq<Outcome>)
      requires Inv(Abs()) && !worker.Crashed?
      modifies this
      ensures Abs() == Apply(old(Abs()), Event.FreeVram(id, outs)).0
      ensures Inv(Abs()) && FreePromise(old(Abs()), id, outs, Abs())
    {
      hide FreePromise;
      FreeKeepsPromise(Abs(), id, outs);
      ApplyKeepsInv(Abs(), Event.FreeVram(id, outs));
      var r := CreateRequest(Free, id);
      var _ := ScheduleRequest(r, outs);
    }

    method MapCpu(id: Id, outs: seq<Outcome>) returns (reply: Reply)
      requires Inv(Abs()) && !worker.Crashed?
      modifies this
      ensures (Abs(), reply) == Apply(old(Abs()), Event.MapCpu(id, outs))
      ensures Inv(Abs()) && MapPromise(old(Abs()), id, outs, Abs(), reply)
    {
      hide MapPromise;
      MapKeepsPromise(Abs(), id, outs);
      ApplyKeepsInv(Abs(), Event.MapCpu(id, outs));
      if pendingMap {
        if wired && pending.op == Map {
          return Capability(None);
        }
        if wired && completed.op == Map {
          pendingMap := false;
          return Capability(Lookup(buffers, completed.id));
        }
      }
      var r := CreateRequest(Map, id);
      var d := ScheduleRequest(r, outs);
      if d.None? {
        pendingMap := true;
        return Capability(None);
      }
      return Capability(Lookup(buffers, d.value.id));
    }

    method UnmapCpu(id: Id, outs: seq<Outcome>)
      requires Inv(Abs()) && !worker.Crashed?
      modifies this
      ensures Abs() == Apply(old(Abs()), Event.UnmapCpu(id, outs)).0
      ensures Inv(Abs()) && UnmapPromise(old(Abs()), id, outs, Abs())
    {
      hide UnmapPromise;
      UnmapKeepsPromise(Abs(), id, outs);
      ApplyKeepsInv(Abs(), Event.UnmapCpu(id, outs));
      var r := CreateRequest(Unmap, id);
      var _ := ScheduleRequest(r, outs);
    }

    /** The destructor's loop, where closing a handle does not block; 'close' is what DRM
        answers, which the worker ignores. */
    method FreeBuffers(close: Outcome)
      requires Inv(Abs()) && worker.Idle?
      modifies this
      ensures buffers == map[] && drm.open == {} && worker.Idle?
      ensures ClosedOnce(old(drm), drm)
      ensures |drm.closes| == |old(drm.closes)| + |old(buffers)|
    {
      ghost var passes: seq<Event> := [];
      TeardownClosesEachHandleOnce(Abs(), []);
      while buffers != map[]
        invariant FreePasses(old(Abs()), passes) && Abs() == Run(old(Abs()), passes)
        invariant Inv(Abs()) && worker.Idle?
        invariant |buffers| + |passes| == |old(buffers)|
        invariant ClosedOnce(old(drm), drm) && |drm.closes| == |old(drm.closes)| + |passes|
        decreases |buffers|
      {
        var id :| id in buffers;
        ghost var s := Abs();
        FreePassProgress(s, id, [close]);
        PassAppended(old(Abs()), passes, Event.FreeVram(id, [close]));
        FreeVram(id, [close]);
        passes := passes + [Event.FreeVram(id, [close])];
        TeardownClosesEachHandleOnce(old(Abs()), passes);
      }
    }
  }

  lemma {:induction false} PassAppended(s: State, es: seq<Event>, e: Event)
    requires FreePasses(s, es)
    requires e.FreeVram? && e.id in Run(s, es).buffers && e.outs != []
    ensures FreePasses(s, es + [e]) && Run(s, es + [e]) == Apply(Run(s, es), e).0
    decreases es
  {
    if es == [] {
      assert es + [e] == [e];
      assert Run(s, [e]) == Run(Apply(s, e).0, []);
    } else {
      assert (es + [e])[1..] == es[1..] + [e];
      PassAppended(Apply(s, es[0]).0, es[1..], e);
    }
  }
}
