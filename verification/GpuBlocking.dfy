/** A worker that is blocked inside a request, whatever happens in the meantime. */
module GpuBlocking {
  import opened GpuProtocol
  import opened GpuSafety

  /** RPCs, which enter the session through its entrypoint. */
  predicate IsRpc(e: Event) {
    !e.Resume? && !e.ClientWrite?
  }

  /** The state after an RPC that finds the worker inside a request: a tag may be drawn, and
      'map_cpu', no other, notes a pending map. */
  function RefusedWhileInside(s: State, e: Event): State {
    var drawn := match e
      case AllocVram(_, size, _) => size < 0x1_0000_0000
      case MapCpu(_, _) => !(s.pendingMap && s.pending.op == Map)
      case _ => true;
    s.(tags := s.tags + (if drawn then 1 else 0), pendingMap := s.pendingMap || e.MapCpu?)
  }

  /** While the worker is inside a request, an RPC is refused: only the tag counter and
      'map_cpu''s note of a pending map change, and the worker is not run, whatever DRM
      outcomes are at hand. */
  lemma RpcIsRefused(s: State, e: Event)
    requires Inv(s) && s.worker.Inside? && IsRpc(e)
    ensures Apply(s, e).0 == RefusedWhileInside(s, e)
    ensures Apply(s, e).1 in {InvalidState, Completed(false), Capability(None), Nothing}
  {
  }

  /** A run during all of which the worker is inside a request, up to its last event. */
  predicate Blocked(s: State, es: seq<Event>)
    decreases es
  {
    es == [] || (s.worker.Inside? && Blocked(Apply(s, es[0]).0, es[1..]))
  }

  /** The DRM outcomes that interrupts bring. */
  function Answers(es: seq<Event>): seq<Outcome>
    decreases es
  {
    if es == [] then [] else (if es[0].Resume? then es[0].outs else []) + Answers(es[1..])
  }

  function Bare(b: Buffers): Buffers {
    map i | i in b :: b[i].(slots := [])
  }

  /** The state without what clients and refused RPCs may touch: the contents of submit
      buffers, the tag counter, and the note of a pending map. */
  function Core(s: State): State {
    s.(tags := 0, pendingMap := false, buffers := Bare(s.buffers))
  }

  lemma BareOfChange(b: Buffers, i: Id, x: Buffer)
    ensures Bare(b[i := x]) == Bare(b)[i := x.(slots := [])]
    ensures Bare(b - {i}) == Bare(b) - {i}
  {
  }

  lemma StepCommutes(s: State, o: Outcome)
    ensures Core(Step(s, o)) == Step(Core(s), o)
  {
    if s.worker.Inside? {
      var r, at := s.worker.r, s.worker.at;
      assert r.id in Bare(s.buffers) <==> r.id in s.buffers;
      match at
      case GemInfo(h) =>
        if o.cap.Some? {
          BareOfChange(s.buffers, r.id, Buffer(h, o.cap.value, []));
        }
        hide Bare;
      case GemClose(h) =>
        BareOfChange(s.buffers, r.id, Buffer(h, 0, []));
        hide Bare;
      case _ =>
        hide Bare;
    }
  }

  lemma {:induction false} RunWorkerCommutes(s: State, outs: seq<Outcome>)
    ensures Core(RunWorker(s, outs)) == RunWorker(Core(s), outs)
    decreases outs
  {
    if s.worker.Inside? && outs != [] {
      StepCommutes(s, outs[0]);
      hide Step, Core;
      RunWorkerCommutes(Step(s, outs[0]), outs[1..]);
    }
  }

  lemma {:induction false} RunWorkerSplit(s: State, a: seq<Outcome>, b: seq<Outcome>)
    ensures RunWorker(RunWorker(s, a), b) == RunWorker(s, a + b)
    decreases a
  {
    hide Step;
    if a == [] {
      assert a + b == b;
    } else if s.worker.Inside? {
      assert (a + b)[1..] == a[1..] + b;
      RunWorkerSplit(Step(s, a[0]), a[1..], b);
    }
  }

  /** However RPCs, writes of the client and interrupts interleave while a request is under
      way, the worker's run is the one it would have made undisturbed. */
  lemma {:induction false} BlockedRun(s: State, es: seq<Event>)
    requires Inv(s) && Blocked(s, es)
    ensures Core(Run(s, es)) == RunWorker(Core(s), Answers(es)) && Inv(Run(s, es))
    ensures s.pendingMap ==> Run(s, es).pendingMap
    decreases es
  {
    if es != [] {
      var e := es[0];
      BlockedEvent(s, e);
      ApplyKeepsInv(s, e);
      hide Apply, Core;
      BlockedRun(Apply(s, e).0, es[1..]);
      RunWorkerSplit(Core(s), if e.Resume? then e.outs else [], Answers(es[1..]));
    }
  }

  lemma BlockedEvent(s: State, e: Event)
    requires Inv(s) && s.worker.Inside?
    ensures Core(Apply(s, e).0) == RunWorker(Core(s), if e.Resume? then e.outs else [])
    ensures s.pendingMap ==> Apply(s, e).0.pendingMap
  {
    if IsRpc(e) {
      RpcIsRefused(s, e);
    } else if e.Resume? {
      var t := s.(tags := s.tags + e.otherTags);
      RunWorkerCommutes(t, e.outs);
      RunWorkerKeepsNote(t, e.outs);
      assert Core(t) == Core(s);
    } else if e.id in s.buffers {
      assert Bare(s.buffers[e.id := s.buffers[e.id].(slots := e.slots)]) == Bare(s.buffers);
    }
  }

  lemma {:induction false} RunWorkerKeepsNote(s: State, outs: seq<Outcome>)
    ensures RunWorker(s, outs).pendingMap == s.pendingMap
    decreases outs
  {
    if s.worker.Inside? && outs != [] {
      RunWorkerKeepsNote(Step(s, outs[0]), outs[1..]);
    }
  }

  /** What stays while a worker is inside the same request: the slots, the buffers, the
      submissions and closed handles, and the number of notifications. */
  predicate StillInside(s: State, t: State) {
    && s.worker.Inside? && t.worker.Inside? && t.worker.r == s.worker.r
    && t == s.(worker := t.worker, drm := s.drm.(open := t.drm.open))
  }

  lemma {:induction false} InsideMeansUnchanged(s: State, outs: seq<Outcome>)
    requires RunWorker(s, outs).worker.Inside?
    ensures StillInside(s, RunWorker(s, outs)) && |outs| <= 2
    decreases outs
  {
    if outs != [] {
      CallsLeftDecrease(s, outs[0]);
      InsideMeansUnchanged(Step(s, outs[0]), outs[1..]);
      if |outs| >= 3 {
        ThreeCallsFinish(s, outs);
      }
    }
  }

  /** From the acceptance of a request until its result is published, no sequence of RPCs,
      interrupts and client writes changes the slots, the recorded buffers or the worker's
      request, submits or closes anything, or notifies the client. */
  lemma SingleFlight(s: State, es: seq<Event>)
    requires Inv(s) && s.worker.Inside? && Blocked(s, es) && Run(s, es).worker.Inside?
    ensures StillInside(Core(s), Core(Run(s, es))) && Inv(Run(s, es))
    ensures s.pendingMap ==> Run(s, es).pendingMap
    ensures |Answers(es)| <= 2
  {
    BlockedRun(s, es);
    InsideMeansUnchanged(Core(s), Answers(es));
  }

  /** No request waits for more than three DRM calls. */
  lemma ThreeCallsFinish(s: State, outs: seq<Outcome>)
    requires |outs| >= 3
    ensures !RunWorker(s, outs).worker.Inside?
  {
    var s1 := Step(s, outs[0]);
    var s2 := Step(s1, outs[1]);
    OneCall(s, outs);
    OneCall(s1, outs[1..]);
    OneCall(s2, outs[2..]);
    CallsLeftDecrease(s, outs[0]);
    CallsLeftDecrease(s1, outs[1]);
    CallsLeftDecrease(s2, outs[2]);
    hide Step;
  }

  lemma OneCall(s: State, outs: seq<Outcome>)
    requires outs != []
    ensures RunWorker(s, outs) == if s.worker.Inside? then RunWorker(Step(s, outs[0]), outs[1..]) else s
  {
  }

  /** Bound on the DRM calls that a request still makes. */
  function CallsLeft(w: Worker): nat {
    if !w.Inside? then 0
    else match w.at
      case GemNew => 3
      case GemInfo(_) => 2
      case _ => 1
  }

  lemma CallsLeftDecrease(s: State, o: Outcome)
    ensures CallsLeft(Step(s, o).worker) < CallsLeft(s.worker) || !s.worker.Inside?
  {
  }
}
