/** What holds in every run of a GPU session. */
module GpuSafety {
  import opened GpuProtocol

  // ---- the invariant ----

  predicate Injective(b: Buffers) {
    forall i, j | i in b && j in b && i != j :: b[i].handle != b[j].handle
  }

  /** The handle that is open in DRM without being recorded in the buffer space. */
  function Unrecorded(w: Worker): set<Handle> {
    if w.Inside? && w.at.GemInfo? then {w.at.handle}
    else if w.Inside? && w.at.GemUndo? then {w.at.handle}
    else {}
  }

  /** A request can be blocked only in the DRM calls of its own operation. */
  predicate Fits(op: Op, at: Point) {
    match at
    case GemNew => op == Alloc
    case GemInfo(_) => op == Alloc
    case GemUndo(_) => op == Alloc
    case GemClose(_) => op == Free
    case Submit(_) => op == Exec
    case WaitFence => op == Wait
    case CpuPrep(_) => op == Map
    case CpuFini(_) => op == Unmap
  }

  /** The handles that a blocked DRM call works on are those of managed buffers. */
  predicate UsesManaged(b: Buffers, r: Request, at: Point) {
    match at
    case GemClose(h) => r.id in b && b[r.id].handle == h
    case CpuPrep(h) => r.id in b && b[r.id].handle == h
    case CpuFini(h) => r.id in b && b[r.id].handle == h
    case Submit(bos) => forall h <- bos :: h in Handles(b)
    case _ => true
  }

  /** The pending slot is taken exactly while the worker is inside that request, and the
      completed slot is blank then. */
  predicate Slots(s: State) {
    && (s.worker.Idle? ==> !s.pending.Valid())
    && (s.worker.Inside? ==>
          && s.wired && s.pending.Valid()
          && s.worker.r == s.pending.(success := false)
          && s.completed == BLANK
          && Fits(s.worker.r.op, s.worker.at))
    && s.pending.tag <= s.tags && s.completed.tag <= s.tags
  }

  predicate Conserved(s: State) {
    && Injective(s.buffers)
    && Handles(s.buffers) !! Unrecorded(s.worker)
    && s.drm.open == Handles(s.buffers) + Unrecorded(s.worker)
  }

  predicate Inv(s: State) {
    s.worker.Crashed? ||
    (&& Slots(s)
     && Conserved(s)
     && (s.worker.Inside? ==> UsesManaged(s.buffers, s.worker.r, s.worker.at))
     && (s.completed.op == Map ==> s.completed.id in s.buffers))
  }

  // ---- handles under changes of the buffer map ----

  lemma HandlesOfUpdate(b: Buffers, i: Id, x: Buffer)
    requires i !in b || b[i].handle == x.handle
    ensures Handles(b[i := x]) == Handles(b) + {x.handle}
  {
    var c := b[i := x];
    forall h | h in Handles(b) + {x.handle}
      ensures h in Handles(c)
    {
      if h in Handles(b) {
        var j :| j in b && b[j].handle == h;
        assert j in c && c[j].handle == h;
      } else {
        assert i in c && c[i].handle == h;
      }
    }
    assert i in b ==> x.handle in Handles(b);
  }

  lemma HandlesOfRemoval(b: Buffers, i: Id)
    requires i in b && Injective(b)
    ensures Handles(b - {i}) == Handles(b) - {b[i].handle}
    ensures Injective(b - {i})
  {
    var c := b - {i};
    forall h | h in Handles(b) - {b[i].handle}
      ensures h in Handles(c)
    {
      var j :| j in b && b[j].handle == h;
      assert j in c && c[j].handle == h;
    }
  }

  lemma InjectiveUpdate(b: Buffers, i: Id, x: Buffer)
    requires Injective(b)
    requires if i in b then b[i].handle == x.handle else x.handle !in Handles(b)
    ensures Injective(b[i := x])
  {
    var c := b[i := x];
    forall j, k | j in c && k in c && j != k
      ensures c[j].handle != c[k].handle
    {
      if j == i && i !in b {
        assert b[k].handle in Handles(b);
      } else if k == i && i !in b {
        assert b[j].handle in Handles(b);
      }
    }
  }

  // ---- preservation ----

  lemma SlotsUpdateKeepsInv(s: State, id: Id, slots: seq<nat>)
    requires Inv(s) && !s.worker.Crashed? && id in s.buffers
    ensures Inv(s.(buffers := s.buffers[id := s.buffers[id].(slots := slots)]))
  {
    HandlesOfUpdate(s.buffers, id, s.buffers[id].(slots := slots));
    InjectiveUpdate(s.buffers, id, s.buffers[id].(slots := slots));
    assert s.buffers[id].handle in Handles(s.buffers);
  }

  lemma StepKeepsInv(s: State, o: Outcome)
    requires Inv(s)
    ensures Inv(Step(s, o))
  {
    if s.worker.Inside? {
      var r, at := s.worker.r, s.worker.at;
      if at.GemInfo? && o.ok && o.cap.Some? && r.id !in s.buffers {
        HandlesOfUpdate(s.buffers, r.id, Buffer(at.handle, o.cap.value, []));
        InjectiveUpdate(s.buffers, r.id, Buffer(at.handle, o.cap.value, []));
      } else if at.GemClose? {
        HandlesOfRemoval(s.buffers, r.id);
      }
    }
  }

  lemma StartKeepsInv(s: State)
    requires Inv(s.(pending := BLANK)) && s.worker.Idle? && s.wired && s.pending.Valid()
    requires s.pending.tag <= s.tags && Managed(s, s.pending)
    ensures Inv(Start(s))
  {
    var r := s.pending.(success := false);
    if r.op == Exec {
      var b := s.buffers;
      var slots := b[r.id].slots;
      var n := FirstUnknown(b, slots);
      var bos := Translated(b, slots, n);
      SlotsUpdateKeepsInv(s.(pending := BLANK), r.id, bos);
      HandlesOfUpdate(b, r.id, b[r.id].(slots := bos));
      assert b[r.id].handle in Handles(b);
      if n == |slots| {
        forall h <- bos
          ensures h in Handles(b)
        {
          var k :| 0 <= k < |bos| && bos[k] == h;
          assert slots[k] in b && b[slots[k]].handle == h;
        }
      }
    }
  }

  lemma {:induction false} RunWorkerKeepsInv(s: State, outs: seq<Outcome>)
    requires Inv(s)
    ensures Inv(RunWorker(s, outs))
    decreases outs
  {
    if s.worker.Inside? && outs != [] {
      StepKeepsInv(s, outs[0]);
      RunWorkerKeepsInv(Step(s, outs[0]), outs[1..]);
    }
  }

  lemma ScheduleKeepsInv(s: State, req: Request, outs: seq<Outcome>)
    requires Inv(s) && !s.worker.Crashed? && req.Valid() && req.tag <= s.tags
    ensures Inv(Schedule(s, req, outs).0)
  {
    if !s.pending.Valid() && Managed(s, req) {
      var t := s.(pending := req, wired := true);
      assert Inv(t.(pending := BLANK));
      StartKeepsInv(t);
      RunWorkerKeepsInv(Start(t), outs);
    }
  }

  lemma ApplyKeepsInv(s: State, e: Event)
    requires Inv(s)
    ensures Inv(Apply(s, e).0)
  {
    if s.worker.Crashed? {
    } else if e.Resume? {
      RunWorkerKeepsInv(s.(tags := s.tags + e.otherTags), e.outs);
    } else if e.ClientWrite? {
      if e.id in s.buffers {
        SlotsUpdateKeepsInv(s, e.id, e.slots);
      }
    } else if RequestOf(s, e).Some? {
      ScheduleKeepsInv(s.(tags := s.tags + 1), RequestOf(s, e).value, e.outs);
    }
  }

  lemma {:induction false} RunKeepsInv(s: State, es: seq<Event>)
    requires Inv(s)
    ensures Inv(Run(s, es))
    decreases es
  {
    if es != [] {
      ApplyKeepsInv(s, es[0]);
      RunKeepsInv(Apply(s, es[0]).0, es[1..]);
    }
  }

  // ---- handle conservation ----

  /** After any run, while the worker is idle, the handles open in DRM are exactly the
      recorded ones, one for each id. */
  lemma HandlesAreConserved(es: seq<Event>)
    ensures var s := Run(INIT, es);
            s.worker.Idle? ==>
              && s.drm.open == Handles(s.buffers)
              && Injective(s.buffers)
              && |s.drm.open| == |s.buffers|
  {
    RunKeepsInv(INIT, es);
    var s := Run(INIT, es);
    if s.worker.Idle? {
      CountHandles(s.buffers);
    }
  }

  lemma {:induction false} CountHandles(b: Buffers)
    requires Injective(b)
    ensures |Handles(b)| == |b|
    decreases |b|
  {
    if b == map[] {
      assert Handles(b) == {};
    } else {
      var i :| i in b;
      HandlesOfRemoval(b, i);
      assert |b - {i}| == |b| - 1 by {
        assert (b - {i}).Keys == b.Keys - {i};
      }
      CountHandles(b - {i});
      assert b[i].handle in Handles(b);
    }
  }
}
