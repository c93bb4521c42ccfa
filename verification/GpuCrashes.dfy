/** Which clients can bring the worker to throw, and with it the driver down. */
module GpuCrashes {
  import opened GpuProtocol
  import opened GpuSafety
  import opened GpuBlocking
  import opened GpuReplies
  import opened GpuResults
  import opened GpuMapping

  /** An 'alloc_vram' that reaches the worker unless it is refused. */
  predicate SmallAlloc(e: Event) {
    e.AllocVram? && e.size <= MAX_SIZE
  }

  // ---- a run, and what its client did ----

  /** A call without the DRM outcomes that return during it. */
  function Call(e: Event): Event {
    match e
    case Execute(id, _) => Execute(id, [])
    case Complete(seqno, _) => Complete(seqno, [])
    case AllocVram(id, size, _) => AllocVram(id, size, [])
    case FreeVram(id, _) => FreeVram(id, [])
    case MapCpu(id, _) => MapCpu(id, [])
    case UnmapCpu(id, _) => UnmapCpu(id, [])
    case _ => e
  }

  /** The client's part of a run: its calls and buffer writes, in order. */
  function Calls(es: seq<Event>): seq<Event>
    decreases es
  {
    if es == [] then [] else (if es[0].Resume? then [] else [Call(es[0])]) + Calls(es[1..])
  }

  /** A sequence that a client determines alone. */
  predicate Program(calls: seq<Event>) {
    forall c <- calls :: !c.Resume? && c == Call(c)
  }

  lemma {:induction false} CallsAppend(es: seq<Event>, fs: seq<Event>)
    ensures Calls(es + fs) == Calls(es) + Calls(fs)
    decreases es
  {
    if es == [] {
      assert es + fs == fs;
    } else {
      assert (es + fs)[1..] == es[1..] + fs;
      CallsAppend(es[1..], fs);
    }
  }

  lemma {:induction false} ProgramIsItsCalls(calls: seq<Event>)
    requires Program(calls)
    ensures Calls(calls) == calls
    decreases calls
  {
    if calls != [] {
      assert calls[0] in calls;
      ProgramIsItsCalls(calls[1..]);
      assert calls == [calls[0]] + calls[1..];
    }
  }

  // ---- distinct ids are safe ----

  /** No allocation names an id that is used already. */
  predicate Distinct(es: seq<Event>, used: set<Id>)
    decreases es
  {
    es == [] || ((SmallAlloc(es[0]) ==> es[0].id !in used) && Distinct(es[1..], Using(es[0], used)))
  }

  function Using(e: Event, used: set<Id>): set<Id> {
    if SmallAlloc(e) then used + {e.id} else used
  }

  predicate IdsAreUsed(s: State, used: set<Id>) {
    && s.worker != Crashed(IdTaken)
    && s.buffers.Keys <= used
    && (s.worker.Inside? && s.worker.r.op == Alloc ==> s.worker.r.id in used && s.worker.r.id !in s.buffers)
  }

  lemma {:induction false} RunWorkerUses(s: State, outs: seq<Outcome>, used: set<Id>)
    requires Inv(s) && IdsAreUsed(s, used)
    ensures IdsAreUsed(RunWorker(s, outs), used)
    decreases outs
  {
    if s.worker.Inside? && outs != [] {
      StepKeepsInv(s, outs[0]);
      RunWorkerUses(Step(s, outs[0]), outs[1..], used);
    }
  }

  lemma ScheduleUses(s: State, req: Request, outs: seq<Outcome>, used: set<Id>)
    requires Inv(s) && IdsAreUsed(s, used) && s.worker.Idle? && req.Valid() && req.tag <= s.tags
    requires req.op == Alloc ==> req.id in used && req.id !in s.buffers
    ensures IdsAreUsed(Schedule(s, req, outs).0, used)
  {
    if Managed(s, req) {
      var t := s.(pending := req, wired := true);
      assert Inv(t.(pending := BLANK));
      StartKeepsInv(t);
      assert IdsAreUsed(Start(t), used);
      RunWorkerUses(Start(t), outs, used);
    }
  }

  lemma ApplyUses(s: State, e: Event, used: set<Id>)
    requires Inv(s) && IdsAreUsed(s, used) && (SmallAlloc(e) ==> e.id !in used)
    ensures IdsAreUsed(Apply(s, e).0, Using(e, used))
  {
    if s.worker.Crashed? || e.ClientWrite? {
    } else if e.Resume? {
      RunWorkerUses(s.(tags := s.tags + e.otherTags), e.outs, used);
    } else if s.worker.Inside? {
      RpcIsRefused(s, e);
    } else if RequestOf(s, e).Some? {
      ScheduleUses(s.(tags := s.tags + 1), RequestOf(s, e).value, e.outs, Using(e, used));
      hide Schedule;
    }
  }

  lemma {:induction false} DistinctIsSafe(s: State, es: seq<Event>, used: set<Id>)
    requires Inv(s) && IdsAreUsed(s, used) && Distinct(es, used)
    ensures Run(s, es).worker != Crashed(IdTaken)
    decreases es
  {
    if es != [] {
      ApplyUses(s, es[0], used);
      ApplyKeepsInv(s, es[0]);
      hide Apply, IdsAreUsed;
      DistinctIsSafe(Apply(s, es[0]).0, es[1..], Using(es[0], used));
    }
  }

  /** Interrupts and DRM outcomes do not matter for distinctness. */
  lemma {:induction false} DistinctCalls(es: seq<Event>, used: set<Id>)
    ensures Distinct(es, used) == Distinct(Calls(es), used)
    decreases es
  {
    if es != [] {
      DistinctCalls(es[1..], Using(es[0], used));
      if es[0].Resume? {
        assert Calls(es) == Calls(es[1..]);
      } else {
        assert Calls(es)[0] == Call(es[0]) && Calls(es)[1..] == Calls(es[1..]);
      }
    }
  }

  predicate Repeats(calls: seq<Event>, i: nat, j: nat) {
    i < j < |calls| && SmallAlloc(calls[i]) && SmallAlloc(calls[j]) && calls[i].id == calls[j].id
  }

  lemma {:induction false} DistinctUnlessRepeated(calls: seq<Event>, used: set<Id>)
    requires forall i: nat, j: nat :: !Repeats(calls, i, j)
    requires forall i: nat :: i < |calls| && SmallAlloc(calls[i]) ==> calls[i].id !in used
    ensures Distinct(calls, used)
    decreases calls
  {
    if calls != [] {
      var rest := calls[1..];
      forall i: nat, j: nat
        ensures !Repeats(rest, i, j)
      {
        assert !Repeats(calls, i + 1, j + 1);
      }
      forall i: nat | i < |rest| && SmallAlloc(rest[i])
        ensures rest[i].id !in Using(calls[0], used)
      {
        assert !Repeats(calls, 0, i + 1);
        assert rest[i] == calls[i + 1];
      }
      DistinctUnlessRepeated(rest, Using(calls[0], used));
    }
  }

  // ---- a repeated id is not ----

  /** The call, with a DRM that fails at once. */
  function Failing(c: Event): Event {
    var outs := [Outcome(false, 0, None)];
    match c
    case Execute(id, _) => Execute(id, outs)
    case Complete(seqno, _) => Complete(seqno, outs)
    case AllocVram(id, size, _) => AllocVram(id, size, outs)
    case FreeVram(id, _) => FreeVram(id, outs)
    case MapCpu(id, _) => MapCpu(id, outs)
    case UnmapCpu(id, _) => UnmapCpu(id, outs)
    case _ => c
  }

  function AllFailing(calls: seq<Event>): seq<Event>
    decreases calls
  {
    if calls == [] then [] else [Failing(calls[0])] + AllFailing(calls[1..])
  }

  /** Nothing is allocated and nothing is under way. */
  predicate Empty(s: State) {
    Inv(s) && s.worker.Idle? && s.buffers == map[] && s.drm.open == {}
  }

  lemma FailingStaysEmpty(s: State, c: Event)
    requires Empty(s) && !c.Resume?
    ensures Empty(Apply(s, Failing(c)).0)
  {
    var e := Failing(c);
    ApplyKeepsInv(s, e);
    match c
    case Execute(id, _) => ExecuteTranslates(s, id, e.outs);
    case Complete(seqno, _) => CompleteKeepsPromise(s, seqno, e.outs);
    case AllocVram(id, size, _) => FailingAlloc(s, id, size, e.outs);
    case FreeVram(id, _) => FreeKeepsPromise(s, id, e.outs);
    case MapCpu(id, _) => MapKeepsPromise(s, id, e.outs);
    case UnmapCpu(id, _) => UnmapKeepsPromise(s, id, e.outs);
    case ClientWrite(_, _) =>
  }

  lemma FailingAlloc(s: State, id: Id, size: nat, outs: seq<Outcome>)
    requires Empty(s) && outs == [Outcome(false, 0, None)]
    ensures Empty(Apply(s, AllocVram(id, size, outs)).0)
  {
    AllocKeepsPromise(s, id, size, outs);
    ApplyKeepsInv(s, AllocVram(id, size, outs));
    if size <= MAX_SIZE {
      var s0 := AllocStarts(s, id, size, outs);
      OneCall(s0, outs);
    }
  }

  lemma {:induction false} AllFailingStaysEmpty(s: State, calls: seq<Event>)
    requires Empty(s) && Program(calls)
    ensures Empty(Run(s, AllFailing(calls)))
    decreases calls
  {
    if calls != [] {
      assert calls[0] in calls;
      FailingStaysEmpty(s, calls[0]);
      hide Apply, Empty;
      AllFailingStaysEmpty(Apply(s, Failing(calls[0])).0, calls[1..]);
    }
  }

  lemma {:induction false} CallsOfFailing(calls: seq<Event>)
    requires Program(calls)
    ensures Calls(AllFailing(calls)) == calls
    decreases calls
  {
    if calls != [] {
      assert calls[0] in calls;
      CallsOfFailing(calls[1..]);
      assert calls == [calls[0]] + calls[1..];
    }
  }

  /** While an allocation is under way and no buffer exists, the client's calls are idle. */
  lemma {:induction false} CallsAreIdle(s: State, calls: seq<Event>)
    requires Inv(s) && s.worker.Inside? && s.buffers == map[] && Program(calls)
    ensures var t := Run(s, calls);
            t == s.(tags := t.tags, pendingMap := t.pendingMap) && Inv(t)
    decreases calls
  {
    if calls != [] {
      var c := calls[0];
      assert c in calls;
      if IsRpc(c) {
        RpcIsRefused(s, c);
      }
      ApplyKeepsInv(s, c);
      var t := Apply(s, c).0;
      assert t == s.(tags := t.tags, pendingMap := t.pendingMap);
      hide Apply;
      CallsAreIdle(Apply(s, c).0, calls[1..]);
    }
  }

  lemma {:induction false} CrashStays(s: State, es: seq<Event>)
    requires s.worker.Crashed?
    ensures Run(s, es) == s
    decreases es
  {
    if es != [] {
      CrashStays(s, es[1..]);
    }
  }

  /** The first allocation blocks, and the client is told that it failed; DRM grants it just
      before the second one. */
  lemma RepeatedIdCrashes(s: State, id: Id, size: nat, mid: seq<Event>, size': nat)
    requires Empty(s) && size <= MAX_SIZE && size' <= MAX_SIZE && Program(mid)
    ensures var (s1, reply) := Apply(s, AllocVram(id, size, []));
            var s3 := Apply(Run(s1, mid), Resume(Allocated(0, 0), 0)).0;
            && reply == Capability(None)
            && id in s3.buffers
            && Apply(s3, AllocVram(id, size', Allocated(1, 1))).0.worker == Crashed(IdTaken)
  {
    var s1 := Apply(s, AllocVram(id, size, [])).0;
    AllocKeepsPromise(s, id, size, []);
    ApplyKeepsInv(s, AllocVram(id, size, []));
    var s0 := AllocStarts(s, id, size, []);
    assert s1 == s0;
    CallsAreIdle(s1, mid);
    var s2 := Run(s1, mid);
    AllocRuns(s2, Allocated(0, 0));
    ApplyKeepsInv(s2, Resume(Allocated(0, 0), 0));
    var s3 := Apply(s2, Resume(Allocated(0, 0), 0)).0;
    TakenIdCrashes(s3, id, size', 1);
  }

  /** In particular a client crashes the driver that simply retries an allocation which was
      answered with an invalid capability because it blocked. */
  lemma RetriedAllocationCrashes()
    ensures Apply(INIT, AllocVram(1, 4096, [])).1 == Capability(None)
    ensures Run(INIT, [AllocVram(1, 4096, []), Resume(Allocated(0, 0), 0),
                       AllocVram(1, 4096, Allocated(1, 1))]).worker == Crashed(IdTaken)
  {
    assert Empty(INIT) by {
      assert Handles(map[]) == {};
    }
    RepeatedIdCrashes(INIT, 1, 4096, [], 4096);
    var s1 := Apply(INIT, AllocVram(1, 4096, [])).0;
    assert Run(s1, []) == s1;
    hide Apply;
    var r, b := Resume(Allocated(0, 0), 0), AllocVram(1, 4096, Allocated(1, 1));
    assert Run(INIT, [AllocVram(1, 4096, []), r, b]) == Run(s1, [r, b]);
    assert Run(s1, [r, b]) == Run(Apply(s1, r).0, [b]);
  }

  lemma TakenIdCrashes(s: State, id: Id, size: nat, h: Handle)
    requires Inv(s) && s.worker.Idle? && id in s.buffers && size <= MAX_SIZE && h !in s.drm.open
    ensures Apply(s, AllocVram(id, size, Allocated(h, 1))).0.worker == Crashed(IdTaken)
  {
    var outs := Allocated(h, 1);
    var s0 := AllocStarts(s, id, size, outs);
    OneCall(s0, outs);
    OneCall(Step(s0, outs[0]), outs[1..]);
  }

  /** A client's calls around an interrupt. */
  function Around(pre: seq<Event>, a: Event, mid: seq<Event>, r: Event, b: Event, post: seq<Event>): seq<Event> {
    pre + ([a] + (mid + ([r] + ([b] + post))))
  }

  lemma CallsAround(pre: seq<Event>, a: Event, mid: seq<Event>, r: Event, b: Event, post: seq<Event>)
    requires r.Resume? && !a.Resume? && !b.Resume?
    ensures Calls(Around(pre, a, mid, r, b, post))
         == Calls(pre) + ([Call(a)] + (Calls(mid) + ([Call(b)] + Calls(post))))
  {
    CallsAppend(pre, [a] + (mid + ([r] + ([b] + post))));
    CallsFirst(a, mid + ([r] + ([b] + post)));
    CallsAppend(mid, [r] + ([b] + post));
    CallsFirst(r, [b] + post);
    CallsFirst(b, post);
    hide Calls, Call;
  }

  lemma CallsFirst(e: Event, es: seq<Event>)
    ensures Calls([e] + es) == if e.Resume? then Calls(es) else [Call(e)] + Calls(es)
  {
    assert ([e] + es)[1..] == es;
  }

  lemma RunAround(s: State, pre: seq<Event>, a: Event, mid: seq<Event>, r: Event, b: Event, post: seq<Event>)
    ensures var s1 := Apply(Run(s, pre), a).0;
            var s3 := Apply(Run(s1, mid), r).0;
            Run(s, Around(pre, a, mid, r, b, post)) == Run(Apply(s3, b).0, post)
  {
    hide Apply;
    RunAppend(s, pre, [a] + (mid + ([r] + ([b] + post))));
    RunFirst(Run(s, pre), a, mid + ([r] + ([b] + post)));
    var s1 := Apply(Run(s, pre), a).0;
    RunAppend(s1, mid, [r] + ([b] + post));
    RunFirst(Run(s1, mid), r, [b] + post);
    RunFirst(Apply(Run(s1, mid), r).0, b, post);
  }

  lemma RunFirst(s: State, e: Event, es: seq<Event>)
    ensures Run(s, [e] + es) == Run(Apply(s, e).0, es)
  {
    assert ([e] + es)[1..] == es;
  }

  /** A run that crashes: everything before the first allocation fails, and the interrupt
      that completes it arrives just before the second one. */
  lemma AroundCrashes(pre: seq<Event>, a: Event, mid: seq<Event>, b: Event, post: seq<Event>)
    requires Program(pre) && Program(mid) && SmallAlloc(a) && a.outs == []
    requires SmallAlloc(b) && b.id == a.id && b.outs == Allocated(1, 1)
    ensures Run(INIT, Around(AllFailing(pre), a, mid, Resume(Allocated(0, 0), 0), b, post)).worker
         == Crashed(IdTaken)
  {
    assert Empty(INIT) by {
      assert Handles(map[]) == {};
    }
    AllFailingStaysEmpty(INIT, pre);
    var s := Run(INIT, AllFailing(pre));
    RepeatedIdCrashes(s, a.id, a.size, mid, b.size);
    hide *;
    var r := Resume(Allocated(0, 0), 0);
    RunAround(INIT, AllFailing(pre), a, mid, r, b, post);
    CrashStays(Apply(Apply(Run(Apply(s, a).0, mid), r).0, b).0, post);
  }

  lemma CrashingRun(calls: seq<Event>, i: nat, j: nat) returns (es: seq<Event>)
    requires Program(calls) && Repeats(calls, i, j)
    ensures Calls(es) == calls && Run(INIT, es).worker == Crashed(IdTaken)
  {
    var pre, a, mid, b, post := calls[..i], calls[i], calls[i + 1..j], calls[j], calls[j + 1..];
    assert a in calls && b in calls;
    var r, b' := Resume(Allocated(0, 0), 0), AllocVram(b.id, b.size, Allocated(1, 1));
    es := Around(AllFailing(pre), a, mid, r, b', post);
    hide Apply, Run, Around;
    AroundCrashes(pre, a, mid, b', post);
    CallsAround(AllFailing(pre), a, mid, r, b', post);
    CallsOfFailing(pre);
    ProgramIsItsCalls(mid);
    ProgramIsItsCalls(post);
    Parts(calls, i, j);
  }

  lemma Parts<T>(s: seq<T>, i: nat, j: nat)
    requires i < j < |s|
    ensures s == s[..i] + ([s[i]] + (s[i + 1..j] + ([s[j]] + s[j + 1..])))
  {
    assert s[..j] == s[..i] + [s[i]] + s[i + 1..j];
    assert s == s[..j] + [s[j]] + s[j + 1..];
  }

  /** Adding a buffer under a taken id can happen, for some DRM and some interleaving with
      interrupts, exactly if the calls of the client name an id in two allocations. For a
      client that does not look at replies it does not help that the first one was answered
      with an invalid capability, or that it frees the buffer in between. */
  lemma CollisionIffRepeatedId(calls: seq<Event>)
    requires Program(calls)
    ensures (exists es :: Calls(es) == calls && Run(INIT, es).worker == Crashed(IdTaken))
       <==> exists i: nat, j: nat :: Repeats(calls, i, j)
  {
    if i: nat, j: nat :| Repeats(calls, i, j) {
      var es := CrashingRun(calls, i, j);
    } else {
      DistinctUnlessRepeated(calls, {});
      forall es | Calls(es) == calls
        ensures Run(INIT, es).worker != Crashed(IdTaken)
      {
        DistinctCalls(es, {});
        DistinctIsSafe(INIT, es, {});
      }
    }
  }

  // ---- a client that reads its replies ----

  /** The ids a client has in use, going by its own calls and the replies to them. */
  function Noted(known: set<Id>, e: Event, reply: Reply): set<Id> {
    match e
    case AllocVram(id, _, _) => if reply.Capability? && reply.cap.Some? then known + {id} else known
    case FreeVram(id, _) => known - {id}
    case _ => known
  }

  function Books(s: State, es: seq<Event>, known: set<Id>): set<Id>
    decreases es
  {
    if es == [] then known
    else
      var (t, reply) := Apply(s, es[0]);
      Books(t, es[1..], Noted(known, es[0], reply))
  }

  /** A run in which every call is done when it returns. */
  predicate NeverBlocks(s: State, es: seq<Event>)
    decreases es
  {
    s.worker.Idle? && (es == [] || NeverBlocks(Apply(s, es[0]).0, es[1..]))
  }

  lemma NotedIsRecorded(s: State, e: Event, known: set<Id>)
    requires Inv(s) && s.worker.Idle? && s.buffers.Keys == known && Apply(s, e).0.worker.Idle?
    ensures var (t, reply) := Apply(s, e);
            t.buffers.Keys == Noted(known, e, reply)
  {
    match e
    case Execute(id, outs) => ExecuteTranslates(s, id, outs);
    case Complete(seqno, outs) => CompleteKeepsPromise(s, seqno, outs);
    case AllocVram(id, size, outs) => AllocKeepsPromise(s, id, size, outs);
    case FreeVram(id, outs) => FreeKeepsPromise(s, id, outs);
    case MapCpu(id, outs) => MapKeepsPromise(s, id, outs);
    case UnmapCpu(id, outs) => UnmapKeepsPromise(s, id, outs);
    case _ =>
  }

  /** As long as no call blocks, the client's books are exact. */
  lemma {:induction false} BooksAreExact(s: State, es: seq<Event>, known: set<Id>)
    requires Inv(s) && NeverBlocks(s, es) && s.buffers.Keys == known
    ensures Run(s, es).buffers.Keys == Books(s, es, known)
    ensures Run(s, es).worker.Idle? && Inv(Run(s, es))
    decreases es
  {
    if es != [] {
      NotedIsRecorded(s, es[0], known);
      ApplyKeepsInv(s, es[0]);
      hide Apply, Noted;
      var (t, reply) := Apply(s, es[0]);
      BooksAreExact(t, es[1..], Noted(known, es[0], reply));
    }
  }

  /** After a run in which no call blocked, the next allocation can crash the worker by
      its id exactly if the id is in the client's books: freed ids may be used again. */
  lemma CollisionIffInBooks(es: seq<Event>, id: Id, size: nat)
    requires NeverBlocks(INIT, es) && size <= MAX_SIZE
    ensures var s := Run(INIT, es);
            (exists outs :: Apply(s, AllocVram(id, size, outs)).0.worker == Crashed(IdTaken))
            <==> id in Books(INIT, es, {})
  {
    BooksAreExact(INIT, es, {});
    var s := Run(INIT, es);
    hide Run, Books;
    if id in s.buffers {
      var h := Unused(s.drm.open);
      TakenIdCrashes(s, id, size, h);
    } else {
      forall outs
        ensures Apply(s, AllocVram(id, size, outs)).0.worker != Crashed(IdTaken)
      {
        ApplyUses(s, AllocVram(id, size, outs), s.buffers.Keys);
      }
    }
  }

  lemma {:induction false} Unused(open: set<Handle>) returns (h: Handle)
    ensures h !in open && forall g <- open :: g < h
    decreases |open|
  {
    h := 0;
    if open != {} {
      var g :| g in open;
      h := Unused(open - {g});
      assert open == (open - {g}) + {g};
      if h <= g {
        h := g + 1;
      }
    }
  }
}
