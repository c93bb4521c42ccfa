/** Blocking CPU mappings and the teardown of a GPU session. */
module GpuMapping {
  import opened GpuProtocol
  import opened GpuSafety
  import opened GpuBlocking
  import opened GpuReplies
  import opened GpuResults

  // ---- a blocked map_cpu and its retries ----

  /** Events between a result and the next request. */
  predicate Between(e: Event) {
    e.ClientWrite? || e.Resume?
  }

  /** A 'map_cpu' of a managed buffer blocks. Whatever happens while it is blocked, every
      retry returns an invalid capability until the DRM call returns; that raises exactly
      one notification, and a retry for the same buffer that is the next request returns
      its dataspace. The last step does not depend on whether DRM granted the access. */
  lemma BlockedMapHandOver(s: State, id: Id, es: seq<Event>, o: Outcome, more: seq<Outcome>,
                           otherTags: nat, fs: seq<Event>, retry: Id, outs: seq<Outcome>)
    requires Inv(s) && s.worker.Idle? && id in s.buffers && !MapHandOver(s)
    requires Blocked(Apply(s, MapCpu(id, [])).0, es) && Answers(es) == []
    requires forall f <- fs :: Between(f)
    ensures var (s1, reply1) := Apply(s, MapCpu(id, []));
            var s2 := Run(s1, es);
            var s3 := Apply(s2, Resume([o] + more, otherTags)).0;
            var s4 := Run(s3, fs);
            var (s5, reply5) := Apply(s4, MapCpu(id, outs));
            && reply1 == Capability(None) && s1.pendingMap
            && Apply(s2, MapCpu(retry, outs)).1 == Capability(None)
            && s2.notifications == s.notifications
            && s3.notifications == s.notifications + 1 && s3.worker.Idle?
            && s3.completed == Create(s, Map, id).(success := o.ok)
            && s4.notifications == s3.notifications
            && reply5 == Capability(Some(s.buffers[id].cap))
            && s5 == s4.(pendingMap := false)
  {
    var s1 := Apply(s, MapCpu(id, [])).0;
    MapKeepsPromise(s, id, []);
    ApplyKeepsInv(s, MapCpu(id, []));
    var s2 := Run(s1, es);
    BlockedRun(s1, es);
    assert Core(s2) == Core(s1);
    var s3 := Apply(s2, Resume([o] + more, otherTags)).0;
    MapReturns(s2, o, more, otherTags);
    var s4 := Run(s3, fs);
    QuietRun(s3, fs);
    assert id in Bare(s1.buffers) && Bare(s4.buffers)[id].cap == Bare(s1.buffers)[id].cap;
    assert MapBusy(s2) && MapHandOver(s4);
    hide Run, Core, Bare;
  }

  lemma MapReturns(s: State, o: Outcome, more: seq<Outcome>, otherTags: nat)
    requires s.worker.Inside? && s.worker.at.CpuPrep?
    ensures var t := Apply(s, Resume([o] + more, otherTags)).0;
            t == Step(s.(tags := s.tags + otherTags), o)
  {
    var u := s.(tags := s.tags + otherTags);
    OneCall(u, [o] + more);
    assert RunWorker(Step(u, o), ([o] + more)[1..]) == Step(u, o);
  }

  /** While the worker is idle, interrupts and client writes change tags and contents only. */
  lemma {:induction false} QuietRun(s: State, fs: seq<Event>)
    requires s.worker.Idle? && forall f <- fs :: Between(f)
    ensures Core(Run(s, fs)) == Core(s) && Run(s, fs).pendingMap == s.pendingMap
    decreases fs
  {
    if fs != [] {
      var f := fs[0];
      assert f in fs && Between(f);
      if f.ClientWrite? && f.id in s.buffers {
        BareOfChange(s.buffers, f.id, s.buffers[f.id].(slots := f.slots));
        assert Bare(s.buffers)[f.id := s.buffers[f.id].(slots := [])] == Bare(s.buffers);
      }
      assert Core(Apply(s, f).0) == Core(s);
      hide Apply, Core;
      QuietRun(Apply(s, f).0, fs[1..]);
    }
  }

  // ---- when a hand-over happens ----

  /** Only 'map_cpu' touches the note of a pending map. It sets the note when it replies with
      an invalid capability, and clears it when it hands a result over. */
  lemma OnlyMapCpuNotes(s: State, e: Event)
    requires Inv(s) && !s.worker.Crashed?
    ensures var (t, reply) := Apply(s, e);
            t.pendingMap == if e.MapCpu? && reply == Capability(None) then true
                            else if e.MapCpu? && MapHandOver(s) then false
                            else s.pendingMap
  {
    match e
    case Execute(id, outs) => ExecuteTranslates(s, id, outs);
    case Complete(seqno, outs) => CompleteKeepsPromise(s, seqno, outs);
    case AllocVram(id, size, outs) => AllocKeepsPromise(s, id, size, outs);
    case FreeVram(id, outs) => FreeKeepsPromise(s, id, outs);
    case MapCpu(id, outs) => MapKeepsPromise(s, id, outs);
    case UnmapCpu(id, outs) => UnmapKeepsPromise(s, id, outs);
    case Resume(outs, otherTags) => RunWorkerKeepsNote(s.(tags := s.tags + otherTags), outs);
    case ClientWrite(_, _) =>
  }

  /** Event 'i' of a run from the initial state is a 'map_cpu' answered with an invalid
      capability, or one that hands over. */
  predicate AnsweredInvalid(es: seq<Event>, i: nat) {
    i < |es| && es[i].MapCpu? && Apply(Run(INIT, es[..i]), es[i]).1 == Capability(None)
  }

  predicate HandsOver(es: seq<Event>, i: nat) {
    && i < |es| && es[i].MapCpu?
    && !Run(INIT, es[..i]).worker.Crashed? && MapHandOver(Run(INIT, es[..i]))
  }

  ghost predicate NotedSince(es: seq<Event>, i: nat) {
    AnsweredInvalid(es, i) && forall j: nat :: i < j ==> !HandsOver(es, j)
  }

  /** In every run, a map is noted as pending exactly if some 'map_cpu' was answered with an
      invalid capability and none has handed over a result since. */
  lemma {:induction false} PendingMapIff(es: seq<Event>)
    ensures Run(INIT, es).pendingMap
       <==> exists i: nat :: NotedSince(es, i)
    decreases |es|
  {
    if es != [] {
      var n := |es| - 1;
      var fs, e := es[..n], es[n];
      assert es == fs + [e];
      PendingMapIff(fs);
      LastEvent(es);
      RunKeepsInv(INIT, fs);
      var s := Run(INIT, fs);
      if !s.worker.Crashed? {
        OnlyMapCpuNotes(s, e);
      }
      assert s.worker.Crashed? ==> Run(INIT, es) == s;
      assert Run(INIT, es).pendingMap ==
             if AnsweredInvalid(es, n) then true else if HandsOver(es, n) then false else s.pendingMap;
      NotedSinceStep(es, fs, n);
    }
  }

  lemma NotedSinceStep(es: seq<Event>, fs: seq<Event>, n: nat)
    requires |es| == n + 1 && fs == es[..n]
    ensures (exists i: nat :: NotedSince(es, i))
         == if AnsweredInvalid(es, n) then true
            else if HandsOver(es, n) then false
            else exists i: nat :: NotedSince(fs, i)
  {
    hide Run, Apply, MapHandOver;
    forall i: nat | i < n
      ensures AnsweredInvalid(es, i) == AnsweredInvalid(fs, i) && HandsOver(es, i) == HandsOver(fs, i)
    {
      assert es[..i] == fs[..i];
    }
    if AnsweredInvalid(es, n) {
      assert NotedSince(es, n);
    } else if !HandsOver(es, n) {
      assert forall j: nat :: n <= j ==> !HandsOver(es, j) && !HandsOver(fs, j);
      assert forall i: nat :: n <= i ==> !AnsweredInvalid(es, i) && !AnsweredInvalid(fs, i);
      hide AnsweredInvalid, HandsOver;
      assert forall i: nat :: NotedSince(fs, i) ==> NotedSince(es, i);
      assert forall i: nat :: NotedSince(es, i) ==> NotedSince(fs, i);
    }
  }

  lemma LastEvent(es: seq<Event>)
    requires es != []
    ensures var n := |es| - 1;
            Run(INIT, es) == Apply(Run(INIT, es[..n]), es[n]).0
  {
    var n := |es| - 1;
    assert es == es[..n] + [es[n]];
    RunAppend(INIT, es[..n], [es[n]]);
    var s := Run(INIT, es[..n]);
    assert Run(s, [es[n]]) == Apply(s, es[n]).0;
  }

  // ---- when a hand-over is right ----

  /** The access that 'map_cpu' stands for: the last completed request is a successful MAP
      of this buffer. */
  predicate MapSucceeded(t: State, id: Id) {
    t.completed.op == Map && t.completed.id == id && t.completed.success
  }

  /** The last 'map_cpu' that reached DRM, and whether DRM has granted the access. */
  datatype Asked = Never | Asked(id: Id, granted: Option<bool>)

  function FirstOk(outs: seq<Outcome>): Option<bool> {
    if outs == [] then None else Some(outs[0].ok)
  }

  /** A 'map_cpu' that is served by asking DRM. */
  predicate AsksDrm(s: State, e: Event) {
    e.MapCpu? && s.worker.Idle? && !MapHandOver(s) && e.id in s.buffers
  }

  function AskedAfter(s: State, e: Event, a: Asked): Asked {
    if AsksDrm(s, e) then Asked(e.id, FirstOk(e.outs))
    else if a.Asked? && a.granted.None? && e.Resume? then a.(granted := FirstOk(e.outs))
    else a
  }

  /** What the calls and DRM's answers of a run say. The slots matter for one thing only:
      whether a 'map_cpu' was served by a hand-over instead of asking DRM. */
  function LastAsked(s: State, es: seq<Event>, a: Asked): Asked
    decreases es
  {
    if es == [] then a else LastAsked(Apply(s, es[0]).0, es[1..], AskedAfter(s, es[0], a))
  }

  /** The slots reflect the last 'map_cpu' that reached DRM. */
  predicate Reflects(s: State, a: Asked) {
    && (s.worker.Inside? && s.worker.at.CpuPrep? ==> a == Asked(s.worker.r.id, None))
    && (a.Asked? && a.granted.None? ==> s.worker.Inside? && s.worker.at.CpuPrep?)
    && (s.completed.op == Map && !s.worker.Crashed? ==>
          a == Asked(s.completed.id, Some(s.completed.success)))
  }

  lemma ResumeReflects(s: State, outs: seq<Outcome>, a: Asked)
    requires Inv(s) && Reflects(s, a) && s.worker.Inside?
    ensures Reflects(RunWorker(s, outs),
                     if a.Asked? && a.granted.None? then a.(granted := FirstOk(outs)) else a)
  {
    if s.worker.at.CpuPrep? {
      if outs != [] {
        OneCall(s, outs);
        assert RunWorker(Step(s, outs[0]), outs[1..]) == Step(s, outs[0]);
      }
    } else {
      RunWorkerPursues(s, s.worker.r, outs);
    }
  }

  /** Requests other than MAP leave the record of the last mapping alone, or replace the
      completed request by their own. */
  lemma ScheduleReflects(s: State, req: Request, outs: seq<Outcome>, a: Asked)
    requires Inv(s) && Reflects(s, a) && s.worker.Idle? && req.Valid() && req.op != Map && !req.success
    ensures Reflects(Schedule(s, req, outs).0, a)
  {
    if Managed(s, req) {
      SchedulePursues(s, req, outs);
      StartFits(s.(pending := req, wired := true));
      RunWorkerPursues(Start(s.(pending := req, wired := true)), req, outs);
      hide Start, RunWorker;
    }
  }

  lemma StartFits(s: State)
    requires s.worker.Idle? && s.wired && s.pending.Valid() && Managed(s, s.pending)
    ensures var r, t := s.pending.(success := false), Start(s);
            Pursues(t, r) && (t.worker.Inside? ==> Fits(r.op, t.worker.at))
  {
  }

  lemma RpcReflects(s: State, e: Event, a: Asked)
    requires Inv(s) && Reflects(s, a) && s.worker.Idle? && IsRpc(e) && !e.MapCpu?
    ensures Reflects(Apply(s, e).0, a)
  {
    if RequestOf(s, e).Some? {
      ScheduleReflects(s.(tags := s.tags + 1), RequestOf(s, e).value, e.outs, a);
      hide Schedule;
    }
  }

  lemma ApplyReflects(s: State, e: Event, a: Asked)
    requires Inv(s) && Reflects(s, a)
    ensures Reflects(Apply(s, e).0, AskedAfter(s, e, a))
  {
    if s.worker.Crashed? || e.ClientWrite? {
    } else if e.Resume? {
      if s.worker.Inside? {
        ResumeReflects(s.(tags := s.tags + e.otherTags), e.outs, a);
      }
    } else if s.worker.Inside? {
      RpcIsRefused(s, e);
    } else if e.MapCpu? {
      MapKeepsPromise(s, e.id, e.outs);
    } else {
      RpcReflects(s, e, a);
    }
  }

  lemma {:induction false} RunReflects(s: State, es: seq<Event>, a: Asked)
    requires Inv(s) && Reflects(s, a)
    ensures Reflects(Run(s, es), LastAsked(s, es, a))
    decreases es
  {
    if es != [] {
      ApplyReflects(s, es[0], a);
      ApplyKeepsInv(s, es[0]);
      hide Apply, AskedAfter, Reflects;
      RunReflects(Apply(s, es[0]).0, es[1..], AskedAfter(s, es[0], a));
    }
  }

  /** After any run, a hand-over returns the dataspace of the buffer of the last 'map_cpu'
      that reached DRM, whatever buffer the client asks for now. It stands for a granted
      access to the requested buffer exactly if that call named this buffer and DRM granted
      the access. A capability that is not handed over always does. */
  lemma MapReplyIsBackedIff(es: seq<Event>, id: Id, outs: seq<Outcome>)
    ensures var s := Run(INIT, es);
            var last := LastAsked(INIT, es, Never);
            var (t, reply) := Apply(s, MapCpu(id, outs));
            !s.worker.Crashed? ==>
              && (MapHandOver(s) ==>
                    && last.Asked? && last.id in s.buffers
                    && reply == Capability(Some(s.buffers[last.id].cap))
                    && (MapSucceeded(t, id) <==> last == Asked(id, Some(true))))
              && (!MapHandOver(s) && reply != Capability(None) ==>
                    && id in s.buffers && reply == Capability(Some(s.buffers[id].cap))
                    && MapSucceeded(t, id))
  {
    RunKeepsInv(INIT, es);
    RunReflects(INIT, es, Never);
    var s := Run(INIT, es);
    if !s.worker.Crashed? {
      MapKeepsPromise(s, id, outs);
    }
  }

  lemma MapOn(s: State, id: Id, ok: bool)
    requires s.worker.Idle? && !s.pending.Valid() && id in s.buffers && !s.pendingMap
    ensures var t := Apply(s, MapCpu(id, [Outcome(ok, 0, None)])).0;
            && t.worker.Idle? && !t.pending.Valid() && t.wired && t.pendingMap == !ok
            && t.completed.op == Map && t.completed.id == id && t.completed.success == ok
            && t.buffers == s.buffers
  {
    var req := Create(s, Map, id);
    var s0 := Start(s.(tags := s.tags + 1, pending := req, wired := true));
    var outs := [Outcome(ok, 0, None)];
    assert RunWorker(s0, outs) == RunWorker(Step(s0, outs[0]), outs[1..]);
  }

  /** A run in which the hand-over returns the dataspace of ANOTHER buffer: buffer 1 is
      mapped, mapping the unknown id 9 fails, and mapping buffer 2 then yields the
      capability 50 of buffer 1 instead of 60. */
  lemma HandOverOfAnotherBuffer()
    ensures var s := Run(INIT, [AllocVram(1, 4096, Allocated(5, 50)), AllocVram(2, 4096, Allocated(6, 60)),
                                MapCpu(1, [Outcome(true, 0, None)]), MapCpu(9, [])]);
            && s.worker.Idle? && 2 in s.buffers && s.buffers[2].cap == 60
            && Apply(s, MapCpu(2, [])).1 == Capability(Some(50))
  {
    var e1, e2 := AllocVram(1, 4096, Allocated(5, 50)), AllocVram(2, 4096, Allocated(6, 60));
    var e3, e4 := MapCpu(1, [Outcome(true, 0, None)]), MapCpu(9, []);
    hide Apply;
    AllocateOn(INIT, 1, 5, 50);
    var s1 := Apply(INIT, e1).0;
    AllocateOn(s1, 2, 6, 60);
    var s2 := Apply(s1, e2).0;
    MapOn(s2, 1, true);
    var s3 := Apply(s2, e3).0;
    MapOfUnknown(s3, 9);
    var s4 := Apply(s3, e4).0;
    RunFour(INIT, e1, e2, e3, e4);
    HandOverReply(s4, 2);
  }

  lemma HandOverReply(s: State, id: Id)
    requires MapHandOver(s) && !s.worker.Crashed?
    ensures Apply(s, MapCpu(id, [])).1 == Capability(Lookup(s.buffers, s.completed.id))
  {
  }

  lemma MapOfUnknown(s: State, id: Id)
    requires s.worker.Idle? && !s.pending.Valid() && id !in s.buffers && !s.pendingMap
    ensures Apply(s, MapCpu(id, [])).0 == s.(tags := s.tags + 1, pendingMap := true)
  {
  }

  /** A run in which a MAP that DRM refused is reported as granted by the retry. */
  lemma HandOverOfFailedMap()
    ensures var s := Run(INIT, [AllocVram(1, 4096, Allocated(5, 50)), MapCpu(1, [Outcome(false, 0, None)])]);
            && s.worker.Idle? && !s.completed.success
            && Apply(s, MapCpu(1, [])).1 == Capability(Some(50))
  {
    var e1, e2 := AllocVram(1, 4096, Allocated(5, 50)), MapCpu(1, [Outcome(false, 0, None)]);
    AllocateOn(INIT, 1, 5, 50);
    var s1 := Apply(INIT, e1).0;
    MapOn(s1, 1, false);
    assert Run(INIT, [e1, e2]) == Run(s1, [e2]) == Apply(s1, e2).0;
  }

  lemma RunFour(s: State, e1: Event, e2: Event, e3: Event, e4: Event)
    ensures Run(s, [e1, e2, e3, e4]) == Apply(Apply(Apply(Apply(s, e1).0, e2).0, e3).0, e4).0
  {
    hide Apply;
    var s1 := Apply(s, e1).0;
    var s2 := Apply(s1, e2).0;
    var s3 := Apply(s2, e3).0;
    assert Run(s, [e1, e2, e3, e4]) == Run(s1, [e2, e3, e4]);
    assert Run(s1, [e2, e3, e4]) == Run(s2, [e3, e4]);
    assert Run(s2, [e3, e4]) == Run(s3, [e4]);
  }

  // ---- teardown ----

  /** One pass of '_free_buffers' is the FREE request of 'free_vram'. It makes the buffer
      space smaller exactly if the worker is idle and closing the handle does not block. */
  lemma FreePassProgress(s: State, id: Id, outs: seq<Outcome>)
    requires Inv(s) && !s.worker.Crashed? && id in s.buffers
    ensures var t := Apply(s, FreeVram(id, outs)).0;
            && (|t.buffers| < |s.buffers| <==> s.worker.Idle? && outs != [])
            && (s.worker.Idle? && outs != [] ==>
                  && t.worker.Idle? && t.buffers == s.buffers - {id}
                  && |t.buffers| == |s.buffers| - 1
                  && t.drm == Close(s.drm, s.buffers[id].handle))
            && (!(s.worker.Idle? && outs != []) ==> t.buffers == s.buffers && t.worker.Inside?)
  {
    FreeKeepsPromise(s, id, outs);
    hide Apply;
    assert (s.buffers - {id}).Keys == s.buffers.Keys - {id};
  }

  /** Passes over managed ids in any order, none of which blocks. */
  predicate FreePasses(s: State, es: seq<Event>)
    decreases es
  {
    es == [] ||
    (&& es[0].FreeVram? && es[0].id in s.buffers && es[0].outs != []
     && FreePasses(Apply(s, es[0]).0, es[1..]))
  }

  /** Between two states of DRM, each handle that is no longer open was closed by exactly
      one call, and no other handle was closed. */
  ghost predicate ClosedOnce(before: Drm, after: Drm) {
    && after.open <= before.open && before.closes <= after.closes
    && (forall h :: h in after.closes[|before.closes|..] <==> h in before.open - after.open)
    && (forall i, j :: |before.closes| <= i < j < |after.closes| ==> after.closes[i] != after.closes[j])
  }

  lemma ClosedOnceStep(before: Drm, h: Handle, after: Drm)
    requires h in before.open && ClosedOnce(Close(before, h), after)
    ensures ClosedOnce(before, after)
  {
    var n := |before.closes|;
    assert after.closes[n] == h;
    assert after.closes[n..] == [h] + after.closes[n + 1..];
    forall i, j | n <= i < j < |after.closes|
      ensures after.closes[i] != after.closes[j]
    {
      if i == n {
        assert after.closes[j] in after.closes[n + 1..];
      }
    }
  }

  lemma NothingClosed(s: State)
    requires Inv(s) && s.worker.Idle?
    ensures ClosedOnce(s.drm, s.drm)
    ensures |s.buffers| == 0 ==> s.buffers == map[] && s.drm.open == {}
  {
    if |s.buffers| == 0 {
      assert s.buffers == map[];
    }
  }

  /** From an idle worker, the destructor's loop makes at most as many passes as there are
      buffers; each closes one handle that no other pass closes, and when the passes are
      used up, no buffer and no open handle is left. */
  lemma {:induction false} TeardownClosesEachHandleOnce(s: State, es: seq<Event>)
    requires Inv(s) && s.worker.Idle? && FreePasses(s, es)
    ensures var t := Run(s, es);
            && Inv(t) && t.worker.Idle?
            && |t.buffers| + |es| == |s.buffers|
            && ClosedOnce(s.drm, t.drm)
            && (|es| == |s.buffers| ==> t.buffers == map[] && t.drm.open == {})
    decreases es
  {
    if es == [] {
      NothingClosed(s);
    } else {
      var id := es[0].id;
      assert s.buffers[id].handle in s.drm.open by {
        assert s.buffers[id].handle in Handles(s.buffers);
      }
      hide Apply, Close, ClosedOnce, Inv;
      FreePassProgress(s, id, es[0].outs);
      ApplyKeepsInv(s, es[0]);
      TeardownClosesEachHandleOnce(Apply(s, es[0]).0, es[1..]);
      ClosedOnceStep(s.drm, s.buffers[id].handle, Run(s, es).drm);
    }
  }

  /** With a request still under way, or once a pass has blocked, no number of passes
      removes a buffer: the destructor's loop does not end. */
  lemma {:induction false} TeardownStuck(s: State, es: seq<Event>)
    requires Inv(s) && s.worker.Inside?
    requires forall e <- es :: e.FreeVram?
    ensures Run(s, es).buffers == s.buffers && Run(s, es).worker == s.worker
    decreases es
  {
    if es != [] {
      assert es[0] in es;
      RpcIsRefused(s, es[0]);
      ApplyKeepsInv(s, es[0]);
      hide Apply;
      TeardownStuck(Apply(s, es[0]).0, es[1..]);
    }
  }

  /** A run of a client after which the destructor does not end: with buffer 1 allocated, a
      wait for a fence is under way. */
  lemma TeardownGetsStuck(es: seq<Event>)
    requires forall e <- es :: e.FreeVram?
    ensures var s := Run(INIT, [AllocVram(1, 4096, Allocated(5, 50)), Complete(7, [])]);
            1 in s.buffers && Run(s, es).buffers == s.buffers
  {
    var e1, e2 := AllocVram(1, 4096, Allocated(5, 50)), Complete(7, []);
    AllocateOn(INIT, 1, 5, 50);
    var s1 := Apply(INIT, e1).0;
    RunKeepsInv(INIT, [e1]);
    assert Run(INIT, [e1]) == s1;
    CompleteKeepsPromise(s1, 7, []);
    ApplyKeepsInv(s1, e2);
    assert Run(INIT, [e1, e2]) == Run(s1, [e2]) == Apply(s1, e2).0;
    TeardownStuck(Apply(s1, e2).0, es);
  }
}
