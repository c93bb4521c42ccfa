/** What the RPCs of a GPU session promise the client. In each promise, 's' is the state
    before the call and 't' the state after it; the worker may block in any DRM call. */
module GpuReplies {
  import opened GpuProtocol
  import opened GpuSafety
  import opened GpuBlocking

  /** A refused RPC draws a tag and changes nothing else. */
  predicate Refused(s: State, t: State) {
    t == s.(tags := s.tags + 1)
  }

  /** The request that the next RPC creates. */
  function NewRequest(s: State, op: Op, id: Id): Request {
    Request(op, id, 0, 0, false, s.tags + 1)
  }

  /** A request was accepted and has blocked in a DRM call. */
  function UnderWay(s: State, r: Request, at: Point): State {
    s.(tags := s.tags + 1, pending := r, completed := BLANK, wired := true, worker := Inside(r, at))
  }

  /** A request was accepted and has completed, with 'c' in the completed slot. */
  function Done(s: State, c: Request): State {
    s.(tags := s.tags + 1, pending := BLANK, completed := c, wired := true)
  }

  // ---- ALLOC ----

  /** The DRM outcomes let an allocation succeed. */
  predicate Allocates(s: State, id: Id, size: nat, outs: seq<Outcome>) {
    && size < 0x1_0000_0000 && id !in s.buffers && |outs| >= 2
    && outs[0].ok && outs[0].value !in s.drm.open
    && outs[1].ok && outs[1].cap.Some?
  }

  /** What a successful allocation adds to the buffer space. */
  function Recorded(b: Buffers, id: Id, outs: seq<Outcome>): Buffers
    requires |outs| >= 2 && outs[1].cap.Some?
  {
    b[id := Buffer(outs[0].value, outs[1].cap.value, [])]
  }

  /** The session after 'alloc_vram', for every way in which DRM can answer or block. */
  function AllocResult(s: State, id: Id, size: nat, outs: seq<Outcome>): State {
    var r := NewRequest(s, Alloc, id).(size := size);
    if size >= 0x1_0000_0000 then s
    else if outs == [] then UnderWay(s, r, GemNew)
    else
      var h := outs[0].value;
      var drm := s.drm.(open := s.drm.open + {h});
      if !outs[0].ok || h in s.drm.open then Done(s, r)
      else if |outs| == 1 then UnderWay(s, r, GemInfo(h)).(drm := drm)
      else if !outs[1].ok then
        if |outs| == 2 then UnderWay(s, r, GemUndo(h)).(drm := drm)
        else Done(s, r).(drm := s.drm.(closes := s.drm.closes + [h]))
      else if id in s.buffers then
        UnderWay(s, r, GemInfo(h)).(drm := drm, worker := Crashed(IdTaken))
      else if outs[1].cap.None? then
        UnderWay(s, r, GemInfo(h)).(drm := drm, worker := Crashed(NoDataspace))
      else Done(s, r.(success := true)).(drm := drm, buffers := Recorded(s.buffers, id, outs))
  }

  /** 'alloc_vram': an idle worker lets it reply with the capability exactly if the allocation
      succeeds during the call. Whatever it replies, it records one fresh handle or, once
      the worker is idle again, has changed neither buffers nor open handles, even if the
      handle had to be closed again because 'gem_info' failed. */
  predicate AllocPromise(s: State, id: Id, size: nat, outs: seq<Outcome>, t: State, reply: Reply) {
    if s.worker.Inside? then
      reply == Capability(None) && t == s.(tags := s.tags + if size < 0x1_0000_0000 then 1 else 0)
    else
      && t == AllocResult(s, id, size, outs)
      && if Allocates(s, id, size, outs) then
           && reply == Capability(outs[1].cap)
           && t.worker.Idle? && t.buffers == Recorded(s.buffers, id, outs)
           && t.drm == s.drm.(open := s.drm.open + {outs[0].value})
         else
           && reply == Capability(None)
           && t.buffers == s.buffers
           && (t.worker.Idle? ==> t.drm.open == s.drm.open)
  }

  lemma AllocKeepsPromise(s: State, id: Id, size: nat, outs: seq<Outcome>)
    requires Inv(s) && !s.worker.Crashed?
    ensures var (t, reply) := Apply(s, AllocVram(id, size, outs));
            AllocPromise(s, id, size, outs, t, reply)
  {
    if s.worker.Inside? {
      RpcIsRefused(s, AllocVram(id, size, outs));
    } else if size < 0x1_0000_0000 {
      var s0 := AllocStarts(s, id, size, outs);
      AllocRuns(s0, outs);
      AllocResultIs(s, id, size, outs);
    }
  }

  lemma AllocResultIs(s: State, id: Id, size: nat, outs: seq<Outcome>)
    requires size < 0x1_0000_0000 && s.worker.Idle?
    ensures RunWorker(UnderWay(s, NewRequest(s, Alloc, id).(size := size), GemNew), outs)
         == AllocResult(s, id, size, outs)
  {
    var s0 := UnderWay(s, NewRequest(s, Alloc, id).(size := size), GemNew);
    if outs != [] {
      OneCall(s0, outs);
      var s1 := Step(s0, outs[0]);
      if s1.worker.Inside? && |outs| > 1 {
        assert s1.drm.open - {outs[0].value} == s.drm.open;
        OneCall(s1, outs[1..]);
        var s2 := Step(s1, outs[1]);
        if s2.worker.Inside? && |outs| > 2 {
          OneCall(s2, outs[2..]);
        }
      }
    }
  }

  lemma AllocStarts(s: State, id: Id, size: nat, outs: seq<Outcome>) returns (s0: State)
    requires Inv(s) && s.worker.Idle? && size <= MAX_SIZE
    ensures s0 == UnderWay(s, NewRequest(s, Alloc, id).(size := size), GemNew)
    ensures Apply(s, AllocVram(id, size, outs)).0 == RunWorker(s0, outs)
  {
    s0 := Start(s.(tags := s.tags + 1, pending := Create(s, Alloc, id).(size := size), wired := true));
  }

  /** The worker's run through ALLOC. */
  lemma AllocRuns(s: State, outs: seq<Outcome>)
    requires s.worker.Inside? && s.worker.at == GemNew && s.worker.r.size <= MAX_SIZE
    requires !s.worker.r.success && s.completed == BLANK
    ensures var r, t := s.worker.r, RunWorker(s, outs);
            if Allocates(s, r.id, r.size, outs) then
              && t.worker.Idle? && t.completed == r.(success := true)
              && t.buffers == Recorded(s.buffers, r.id, outs)
              && t.drm == s.drm.(open := s.drm.open + {outs[0].value})
            else
              && t.buffers == s.buffers && !t.completed.success
              && (t.worker.Idle? ==> t.drm.open == s.drm.open)
  {
    if outs != [] {
      OneCall(s, outs);
      var s1 := Step(s, outs[0]);
      if s1.worker.Inside? && |outs| > 1 {
        assert s1.drm.open - {outs[0].value} == s.drm.open;
        OneCall(s1, outs[1..]);
        var s2 := Step(s1, outs[1]);
        if s2.worker.Inside? && |outs| > 2 {
          OneCall(s2, outs[2..]);
        }
      }
    }
  }

  /** The same buffers, up to the contents of submit buffers, and the same open handles. */
  predicate NothingRecorded(s: State, t: State) {
    Bare(t.buffers) == Bare(s.buffers) && t.drm.open == s.drm.open
  }

  /** The whole life of an allocation request, with any events while it is under way: once
      the worker is idle again, the buffer is recorded exactly if all DRM outcomes together
      let the allocation succeed. So an invalid capability means that nothing is recorded
      exactly if the call did not block, or the outcomes still to come make it fail. */
  lemma InvalidReplyMeansNothingRecordedIff(s: State, id: Id, size: nat, outs: seq<Outcome>, es: seq<Event>)
    requires Inv(s) && s.worker.Idle?
    requires Blocked(Apply(s, AllocVram(id, size, outs)).0, es)
    requires Run(Apply(s, AllocVram(id, size, outs)).0, es).worker.Idle?
    ensures var (t, reply) := Apply(s, AllocVram(id, size, outs));
            var u, all := Run(t, es), outs + Answers(es);
            && Bare(u.buffers) == (if Allocates(s, id, size, all) then Recorded(Bare(s.buffers), id, all)
                                   else Bare(s.buffers))
            && u.drm.open == s.drm.open + (if Allocates(s, id, size, all) then {all[0].value} else {})
            && (reply == Capability(None) ==>
                  (NothingRecorded(s, u) <==> t.worker.Idle? || !Allocates(s, id, size, all)))
  {
    var t := Apply(s, AllocVram(id, size, outs)).0;
    AllocKeepsPromise(s, id, size, outs);
    ApplyKeepsInv(s, AllocVram(id, size, outs));
    BlockedRun(t, es);
    var u, all := Run(t, es), outs + Answers(es);
    if size <= MAX_SIZE {
      var s0 := AllocStarts(s, id, size, outs);
      RunWorkerCommutes(s0, outs);
      RunWorkerSplit(Core(s0), outs, Answers(es));
      hide Apply, RunWorker;
      AllocRuns(Core(s0), all);
      assert Core(u) == RunWorker(Core(s0), all);
      assert Allocates(Core(s0), id, size, all) <==> Allocates(s, id, size, all);
    }
    if Allocates(s, id, size, all) {
      assert id in Recorded(Bare(s.buffers), id, all) && id !in Bare(s.buffers);
    }
  }

  /** Outcomes of a successful allocation. */
  function Allocated(h: Handle, cap: Cap): seq<Outcome> {
    [Outcome(true, h, None), Outcome(true, 0, Some(cap))]
  }

  lemma AllocateOn(s: State, id: Id, h: Handle, cap: Cap)
    requires s.worker.Idle? && !s.pending.Valid() && id !in s.buffers && h !in s.drm.open
    ensures var t := Apply(s, AllocVram(id, 4096, Allocated(h, cap))).0;
            && t.worker.Idle? && !t.pending.Valid() && t.pendingMap == s.pendingMap
            && t.buffers == s.buffers[id := Buffer(h, cap, [])]
            && t.drm.open == s.drm.open + {h}
  {
    var req := Create(s, Alloc, id).(size := 4096);
    var s0 := Start(s.(tags := s.tags + 1, pending := req, wired := true));
    var outs := Allocated(h, cap);
    var s1 := Step(s0, outs[0]);
    assert RunWorker(s0, outs) == RunWorker(s1, outs[1..]);
    assert RunWorker(s1, outs[1..]) == RunWorker(Step(s1, outs[1]), outs[1..][1..]);
  }

  // ---- EXEC ----

  /** 'execute', for every content of the submit buffer. If all its ids are managed, DRM
      receives exactly the handles of these ids, slot by slot, and every named buffer is
      flushed; the reply is the fence if the submission returns successfully right away. If
      the id at position 'n' is the first unknown one, nothing is submitted, and the slots
      from 'n' on still hold what the client wrote. */
  predicate ExecutePromise(s: State, id: Id, outs: seq<Outcome>, t: State, reply: Reply) {
    if s.worker.Inside? || id !in s.buffers then reply == InvalidState && Refused(s, t)
    else
      var r := NewRequest(s, Exec, id);
      var slots := s.buffers[id].slots;
      var n := FirstUnknown(s.buffers, slots);
      && id in t.buffers && |t.buffers[id].slots| == |slots|
      && t.buffers == s.buffers[id := s.buffers[id].(slots := t.buffers[id].slots)]
      && (forall k :: 0 <= k < n ==>
            slots[k] in s.buffers && t.buffers[id].slots[k] == s.buffers[slots[k]].handle)
      && t.buffers[id].slots[n..] == slots[n..]
      && t.flushed == s.flushed + slots[..n]
      && (n < |slots| ==>
            && reply == InvalidState && slots[n] !in s.buffers
            && t == Done(s, r).(buffers := t.buffers, flushed := t.flushed))
      && (n == |slots| ==>
            && t.drm == s.drm.(submits := s.drm.submits + [t.buffers[id].slots])
            && t == (if outs == [] then UnderWay(s, r, Submit(t.buffers[id].slots))
                     else if outs[0].ok then Done(s, r.(success := true, seqno := outs[0].value))
                     else Done(s, r)).(buffers := t.buffers, flushed := t.flushed, drm := t.drm)
            && (reply == InvalidState <==> outs == [] || !outs[0].ok)
            && (outs != [] && outs[0].ok ==> reply == SequenceNumber(outs[0].value)))
  }

  lemma ExecuteTranslates(s: State, id: Id, outs: seq<Outcome>)
    requires Inv(s) && !s.worker.Crashed?
    ensures var (t, reply) := Apply(s, Execute(id, outs));
            ExecutePromise(s, id, outs, t, reply)
  {
    if s.worker.Inside? {
      RpcIsRefused(s, Execute(id, outs));
    } else if id in s.buffers {
      ManagedExecTranslates(s, id, outs);
    }
  }

  /** 'Invalid_state' means that nothing was submitted exactly if the call was refused or
      some id is unknown. Otherwise the submission has failed or, if it blocked, may still
      succeed, which the client is not told. */
  lemma InvalidStateMeansNotSubmittedIff(s: State, id: Id, outs: seq<Outcome>)
    requires Inv(s) && !s.worker.Crashed?
    ensures var (t, reply) := Apply(s, Execute(id, outs));
            reply == InvalidState ==>
              (t.drm.submits == s.drm.submits
               <==> s.worker.Inside? || id !in s.buffers
                    || FirstUnknown(s.buffers, s.buffers[id].slots) < |s.buffers[id].slots|)
  {
    ExecuteTranslates(s, id, outs);
    hide Apply, Inv, FirstUnknown;
  }

  /** A run in which a submission that blocks is answered with the exception. */
  lemma BlockedExecIsSubmitted()
    ensures var s := Run(INIT, [AllocVram(1, 4096, Allocated(5, 50))]);
            var (t, reply) := Apply(s, Execute(1, []));
            reply == InvalidState && t.drm.submits == [[]] && t.worker.Inside?
  {
    var e := AllocVram(1, 4096, Allocated(5, 50));
    AllocateOn(INIT, 1, 5, 50);
    var s := Apply(INIT, e).0;
    assert Run(INIT, [e]) == Run(s, []) == s;
    assert s.buffers[1].slots == [];
  }

  lemma ManagedExecTranslates(s: State, id: Id, outs: seq<Outcome>)
    requires Inv(s) && s.worker.Idle? && id in s.buffers
    ensures var (t, reply) := Apply(s, Execute(id, outs));
            ExecutePromise(s, id, outs, t, reply)
  {
    var slots := s.buffers[id].slots;
    if FirstUnknown(s.buffers, slots) < |slots| {
      ExecFails(s, id, outs);
    } else {
      ExecSubmits(s, id, outs);
    }
    hide Apply, Inv, ExecutePromise, FirstUnknown;
  }

  lemma ExecFails(s: State, id: Id, outs: seq<Outcome>)
    requires Inv(s) && s.worker.Idle? && id in s.buffers
    requires FirstUnknown(s.buffers, s.buffers[id].slots) < |s.buffers[id].slots|
    ensures var (t, reply) := Apply(s, Execute(id, outs));
            ExecutePromise(s, id, outs, t, reply)
  {
    var req := Create(s, Exec, id);
    ExecApplies(s, id, outs);
    ExecStarts(s.(tags := s.tags + 1, pending := req, wired := true, completed := BLANK), req);
    hide Apply, Inv, StartExec, Translated, FirstUnknown, Step;
  }

  lemma ExecSubmits(s: State, id: Id, outs: seq<Outcome>)
    requires Inv(s) && s.worker.Idle? && id in s.buffers
    requires FirstUnknown(s.buffers, s.buffers[id].slots) == |s.buffers[id].slots|
    ensures var (t, reply) := Apply(s, Execute(id, outs));
            ExecutePromise(s, id, outs, t, reply)
  {
    var req := Create(s, Exec, id);
    ExecApplies(s, id, outs);
    ExecStarts(s.(tags := s.tags + 1, pending := req, wired := true, completed := BLANK), req);
    hide Apply, Inv, StartExec, Translated, FirstUnknown;
  }

  /** What the worker does of EXEC before the submission returns. */
  lemma ExecStarts(s: State, r: Request)
    requires s.worker.Idle? && r.id in s.buffers
    ensures var t := StartExec(s, r);
            var slots := s.buffers[r.id].slots;
            var n := FirstUnknown(s.buffers, slots);
            var bos := Translated(s.buffers, slots, n);
            && |bos| == |slots| && bos[n..] == slots[n..]
            && (forall k :: 0 <= k < n ==> bos[k] == s.buffers[slots[k]].handle)
            && t.buffers == s.buffers[r.id := s.buffers[r.id].(slots := bos)]
            && t.flushed == s.flushed + slots[..n]
            && (n < |slots| ==>
                  t == s.(buffers := t.buffers, flushed := t.flushed, completed := r, pending := BLANK))
            && (n == |slots| ==>
                  && t.drm == s.drm.(submits := s.drm.submits + [bos])
                  && t == s.(buffers := t.buffers, flushed := t.flushed, drm := t.drm,
                             worker := Inside(r, Submit(bos))))
  {
    TranslatedParts(s.buffers, s.buffers[r.id].slots);
    hide Translated, FirstUnknown;
  }

  lemma ExecApplies(s: State, id: Id, outs: seq<Outcome>)
    requires Inv(s) && s.worker.Idle? && id in s.buffers
    ensures var req := Create(s, Exec, id);
            var s0 := s.(tags := s.tags + 1, pending := req, wired := true, completed := BLANK);
            var s1 := StartExec(s0, req);
            var t := if s1.worker.Inside? && outs != [] then Step(s1, outs[0]) else s1;
            Apply(s, Execute(id, outs))
            == (t, if t.completed.success then SequenceNumber(t.completed.seqno) else InvalidState)
  {
    var req := Create(s, Exec, id);
    var s0 := s.(tags := s.tags + 1, pending := req, wired := true, completed := BLANK);
    ExecRuns(StartExec(s0, req), outs);
    hide StartExec, RunWorker, Step;
  }

  lemma TranslatedParts(b: Buffers, slots: seq<nat>)
    ensures var n := FirstUnknown(b, slots);
            var bos := Translated(b, slots, n);
            && |bos| == |slots| && bos[n..] == slots[n..]
            && forall k :: 0 <= k < n ==> bos[k] == b[slots[k]].handle
  {
  }

  lemma ExecRuns(s: State, outs: seq<Outcome>)
    requires s.worker.Inside? ==> s.worker.at.Submit?
    ensures RunWorker(s, outs) == if s.worker.Inside? && outs != [] then Step(s, outs[0]) else s
  {
    if s.worker.Inside? && outs != [] {
      OneCall(s, outs);
    }
  }

  // ---- WAIT ----

  /** 'complete' says so exactly if the fence wait returned without an error during the
      call. A wait that has to block is reported as not completed. */
  predicate CompletePromise(s: State, seqno: nat, outs: seq<Outcome>, t: State, reply: Reply) {
    if s.worker.Inside? then reply == Completed(false) && Refused(s, t)
    else
      var r := NewRequest(s, Wait, 0).(seqno := seqno);
      && reply == Completed(outs != [] && outs[0].ok)
      && t == if outs == [] then UnderWay(s, r, WaitFence)
              else Done(s, r.(success := outs[0].ok)).(notifications := s.notifications + 1)
  }

  lemma CompleteKeepsPromise(s: State, seqno: nat, outs: seq<Outcome>)
    requires Inv(s) && !s.worker.Crashed?
    ensures var (t, reply) := Apply(s, Complete(seqno, outs));
            CompletePromise(s, seqno, outs, t, reply)
  {
    if s.worker.Inside? {
      RpcIsRefused(s, Complete(seqno, outs));
    } else {
      SingleCall(s, Create(s, Wait, 0).(seqno := seqno), WaitFence, outs);
    }
  }

  /** A wait that blocks raises one notification when it returns, whatever happened in the
      meantime, so that the client asks again. */
  lemma BlockedWaitNotifies(s: State, seqno: nat, es: seq<Event>)
    requires Inv(s) && s.worker.Idle?
    requires Blocked(Apply(s, Complete(seqno, [])).0, es)
    ensures var u := Run(Apply(s, Complete(seqno, [])).0, es);
            u.worker.Idle? <==> Answers(es) != []
    ensures var u := Run(Apply(s, Complete(seqno, [])).0, es);
            u.notifications == s.notifications + (if Answers(es) == [] then 0 else 1)
  {
    var t := Apply(s, Complete(seqno, [])).0;
    CompleteKeepsPromise(s, seqno, []);
    ApplyKeepsInv(s, Complete(seqno, []));
    hide Apply;
    BlockedRun(t, es);
    if Answers(es) != [] {
      OneCall(Core(t), Answers(es));
    }
  }

  // ---- FREE, UNMAP and MAP ----

  /** 'free_vram' of a managed buffer closes its handle and forgets it, unless closing blocks. */
  predicate FreePromise(s: State, id: Id, outs: seq<Outcome>, t: State) {
    if s.worker.Inside? || id !in s.buffers then Refused(s, t)
    else
      var r, h := NewRequest(s, Free, id), s.buffers[id].handle;
      t == if outs == [] then UnderWay(s, r, GemClose(h))
           else Done(s, r.(success := true)).(
                  buffers := s.buffers - {id},
                  drm := s.drm.(open := s.drm.open - {h}, closes := s.drm.closes + [h]))
  }

  lemma FreeKeepsPromise(s: State, id: Id, outs: seq<Outcome>)
    requires Inv(s) && !s.worker.Crashed?
    ensures FreePromise(s, id, outs, Apply(s, FreeVram(id, outs)).0)
  {
    if s.worker.Inside? {
      RpcIsRefused(s, FreeVram(id, outs));
    } else if id in s.buffers {
      SingleCall(s, Create(s, Free, id), GemClose(s.buffers[id].handle), outs);
    }
  }

  /** 'unmap_cpu' of a managed buffer ends the CPU's access to that buffer and no other, and
      changes no buffer. */
  predicate UnmapPromise(s: State, id: Id, outs: seq<Outcome>, t: State) {
    if s.worker.Inside? || id !in s.buffers then Refused(s, t)
    else
      var r := NewRequest(s, Unmap, id);
      t == if outs == [] then UnderWay(s, r, CpuFini(s.buffers[id].handle))
           else Done(s, r.(success := true))
  }

  lemma UnmapKeepsPromise(s: State, id: Id, outs: seq<Outcome>)
    requires Inv(s) && !s.worker.Crashed?
    ensures UnmapPromise(s, id, outs, Apply(s, UnmapCpu(id, outs)).0)
  {
    if s.worker.Inside? {
      RpcIsRefused(s, UnmapCpu(id, outs));
    } else if id in s.buffers {
      SingleCall(s, Create(s, Unmap, id), CpuFini(s.buffers[id].handle), outs);
    }
  }

  /** 'map_cpu': busy with an interrupted mapping, handing over its result, refused, or
      asking DRM. In the last case the reply is the buffer's dataspace exactly if DRM grants
      the access during the call. */
  predicate MapPromise(s: State, id: Id, outs: seq<Outcome>, t: State, reply: Reply) {
    if s.pendingMap && s.wired && s.pending.op == Map then reply == Capability(None) && t == s
    else if s.pendingMap && s.wired && s.completed.op == Map then
      && s.completed.id in s.buffers
      && reply == Capability(Some(s.buffers[s.completed.id].cap))
      && t == s.(pendingMap := false)
    else if s.worker.Inside? || id !in s.buffers then
      reply == Capability(None) && t == s.(tags := s.tags + 1, pendingMap := true)
    else
      var r := NewRequest(s, Map, id);
      && reply == Capability(if outs != [] && outs[0].ok then Some(s.buffers[id].cap) else None)
      && t == (if outs == [] then UnderWay(s, r, CpuPrep(s.buffers[id].handle))
               else Done(s, r.(success := outs[0].ok)).(notifications := s.notifications + 1)).(
                pendingMap := s.pendingMap || outs == [] || !outs[0].ok)
  }

  lemma MapKeepsPromise(s: State, id: Id, outs: seq<Outcome>)
    requires Inv(s) && !s.worker.Crashed?
    ensures var (t, reply) := Apply(s, MapCpu(id, outs));
            MapPromise(s, id, outs, t, reply)
  {
    if MapBusy(s) || MapHandOver(s) {
    } else if s.worker.Inside? {
      RpcIsRefused(s, MapCpu(id, outs));
    } else if id in s.buffers {
      SingleCall(s, Create(s, Map, id), CpuPrep(s.buffers[id].handle), outs);
    }
  }

  /** A request that makes one DRM call. */
  lemma SingleCall(s: State, req: Request, at: Point, outs: seq<Outcome>)
    requires Inv(s) && s.worker.Idle? && req.op in {Free, Map, Unmap, Wait} && !req.success
    requires req.op == Wait || req.id in s.buffers
    requires at == match req.op
             case Free => GemClose(s.buffers[req.id].handle)
             case Map => CpuPrep(s.buffers[req.id].handle)
             case Unmap => CpuFini(s.buffers[req.id].handle)
             case _ => WaitFence
    ensures var s0 := s.(tags := s.tags + 1, pending := req, wired := true,
                         completed := BLANK, worker := Inside(req, at));
            var t := if outs == [] then s0 else Step(s0, outs[0]);
            Schedule(s.(tags := s.tags + 1), req, outs)
            == (t, if t.completed.success then Some(t.completed) else None)
  {
    var s0 := Start(s.(tags := s.tags + 1, pending := req, wired := true));
    if outs != [] {
      OneCall(s0, outs);
    }
  }

  // ---- interrupts and writes of the client ----

  /** What is not an RPC: a write replaces the contents of one submit buffer, an interrupt
      leaves an idle worker alone, and nothing happens after a crash. */
  lemma OtherEvents(s: State, e: Event)
    requires !IsRpc(e) || s.worker.Crashed?
    ensures var (t, reply) := Apply(s, e);
            && reply == Nothing
            && (s.worker.Crashed? ==> t == s)
            && (e.Resume? && s.worker.Idle? ==> t == s.(tags := s.tags + e.otherTags))
            && (e.ClientWrite? && !s.worker.Crashed? ==>
                  t == if e.id !in s.buffers then s
                       else var b := s.buffers[e.id];
                            s.(buffers := s.buffers[e.id := Buffer(b.handle, b.cap, e.slots)]))
  {
  }

  /** The same RPC with other DRM outcomes during the call. */
  function WithOutcomes(e: Event, outs: seq<Outcome>): Event
    requires IsRpc(e)
  {
    match e
    case Execute(id, _) => Execute(id, outs)
    case Complete(seqno, _) => Complete(seqno, outs)
    case AllocVram(id, size, _) => AllocVram(id, size, outs)
    case FreeVram(id, _) => FreeVram(id, outs)
    case MapCpu(id, _) => MapCpu(id, outs)
    case UnmapCpu(id, _) => UnmapCpu(id, outs)
  }

  lemma {:induction false} RunWorkerFrame(s: State, tags: nat, note: bool, outs: seq<Outcome>)
    ensures RunWorker(s.(tags := tags, pendingMap := note), outs)
         == RunWorker(s, outs).(tags := tags, pendingMap := note)
    decreases outs
  {
    if s.worker.Inside? && outs != [] {
      StepFrame(s, tags, note, outs[0]);
      hide Step;
      RunWorkerFrame(Step(s, outs[0]), tags, note, outs[1..]);
    }
  }

  lemma StepFrame(s: State, tags: nat, note: bool, o: Outcome)
    ensures Step(s.(tags := tags, pendingMap := note), o)
         == Step(s, o).(tags := tags, pendingMap := note)
  {
    StepKeepsTags(s, tags, o);
    StepKeepsNote(s.(tags := tags), note, o);
    hide Step;
  }

  lemma StepKeepsTags(s: State, tags: nat, o: Outcome)
    ensures Step(s.(tags := tags), o) == Step(s, o).(tags := tags)
  {
    if s.worker.Inside? {
      match s.worker.at
      case GemNew =>
      case GemInfo(_) =>
      case GemUndo(_) =>
      case GemClose(_) =>
      case Submit(_) =>
      case WaitFence =>
      case CpuPrep(_) =>
      case CpuFini(_) =>
    }
  }

  lemma StepKeepsNote(s: State, note: bool, o: Outcome)
    ensures Step(s.(pendingMap := note), o) == Step(s, o).(pendingMap := note)
  {
    if s.worker.Inside? {
      match s.worker.at
      case GemNew =>
      case GemInfo(_) =>
      case GemUndo(_) =>
      case GemClose(_) =>
      case Submit(_) =>
      case WaitFence =>
      case CpuPrep(_) =>
      case CpuFini(_) =>
    }
  }

  /** It makes no difference to the session when the DRM calls of a request return: during the
      RPC, or at a later interrupt. Only the note of a pending map tells the cases apart. */
  lemma InterruptsContinue(s: State, e: Event, a: seq<Outcome>, b: seq<Outcome>, otherTags: nat)
    requires Inv(s) && s.worker.Idle? && IsRpc(e)
    requires !Apply(s, WithOutcomes(e, a)).0.worker.Crashed?
    ensures var t := Apply(s, WithOutcomes(e, a)).0;
            Apply(t, Resume(b, otherTags)).0
            == Apply(s, WithOutcomes(e, a + b)).0.(tags := t.tags + otherTags, pendingMap := t.pendingMap)
  {
    if Accepted(s, e) {
      AcceptedContinues(s, e, a, b, otherTags);
    } else {
      NotAccepted(s, e, a);
      NotAccepted(s, e, a + b);
      ResumeRuns(Apply(s, e).0, b, otherTags);
    }
    hide Apply, Inv;
  }

  lemma AcceptedContinues(s: State, e: Event, a: seq<Outcome>, b: seq<Outcome>, otherTags: nat)
    requires Inv(s) && s.worker.Idle? && IsRpc(e) && Accepted(s, e)
    requires !Apply(s, WithOutcomes(e, a)).0.worker.Crashed?
    ensures var t := Apply(s, WithOutcomes(e, a)).0;
            Apply(t, Resume(b, otherTags)).0
            == Apply(s, WithOutcomes(e, a + b)).0.(tags := t.tags + otherTags, pendingMap := t.pendingMap)
  {
    AcceptedRuns(s, e, a);
    AcceptedRuns(s, e, a + b);
    hide *;
    var t := Apply(s, WithOutcomes(e, a)).0;
    var s0 := Accept(s, e);
    RunWorkerSplit(s0, a, b);
    RunWorkerFrame(RunWorker(s0, a), t.tags + otherTags, t.pendingMap, b);
    ResumeRuns(t, b, otherTags);
  }

  predicate Accepted(s: State, e: Event)
    requires IsRpc(e)
  {
    RequestOf(s, e).Some? && Managed(s, RequestOf(s, e).value)
  }

  function Accept(s: State, e: Event): State
    requires IsRpc(e) && Accepted(s, e)
  {
    Start(s.(tags := s.tags + 1, pending := RequestOf(s, e).value, wired := true))
  }

  lemma AcceptedRuns(s: State, e: Event, outs: seq<Outcome>)
    requires Inv(s) && s.worker.Idle? && IsRpc(e) && Accepted(s, e)
    ensures var t, u := Apply(s, WithOutcomes(e, outs)).0, RunWorker(Accept(s, e), outs);
            t == u.(pendingMap := t.pendingMap)
  {
    hide RunWorker, Start;
  }

  lemma NotAccepted(s: State, e: Event, outs: seq<Outcome>)
    requires Inv(s) && s.worker.Idle? && IsRpc(e) && !Accepted(s, e)
    ensures Apply(s, WithOutcomes(e, outs)).0 == Apply(s, e).0 && Apply(s, e).0.worker.Idle?
  {
    hide RunWorker, Start;
  }

  lemma ResumeRuns(s: State, outs: seq<Outcome>, otherTags: nat)
    requires !s.worker.Crashed?
    ensures Apply(s, Resume(outs, otherTags)).0
         == RunWorker(s.(tags := s.tags + otherTags, pendingMap := s.pendingMap), outs)
  {
  }
}
